/** An entry of the trace of an embedded core, rewritten as an entry of a trace buffer of
    the service processor. */
module TraceEntry {
  import opened Bytes
  import opened TraceTime
  import opened TraceBuffer

  const VERSION: nat := 2
  const IN_HEADER: nat := 56
  const OUT_HEADER: nat := 40
  const FIELD_TRACE: u16 := 0x4654
  const FIELD_BIN: u16 := 0x4644
  const STAMP_AND_HEAD: nat := 24
  const DATA: nat := 264

  /** The fields of a `PkTraceBuffer` the converter uses. */
  datatype Trace = Trace(version: u16, instanceId: u16, partialHash: u16, hashPrefix: u16,
                         maxTimeChange: u32, hz: u32, timeAdj: u64, tbu: u32, offset: u32, cb: seq<byte>)

  /** The stamp and head of a converted entry. */
  datatype Head = Head(tbh: u32, tbl: u32, tid: u32, length: u16, tag: u16, hash: u32, line: u32)

  function HeadBytes(h: Head): (s: seq<byte>)
    ensures |s| == STAMP_AND_HEAD
  {
    BeBytes(h.tbh, 4) + BeBytes(h.tbl, 4) + BeBytes(h.tid, 4)
    + BeBytes(h.length, 2) + BeBytes(h.tag, 2) + BeBytes(h.hash, 4) + BeBytes(h.line, 4)
  }

  // ----- what an entry becomes

  /** The writer had not finished the entry, or part of it was overwritten. */
  predicate Partial(f: Footer) { (f.format == Big || f.format == Binary) && f.complete == 0 }

  function Hash(prefix: u16, id: u16): u32 { prefix * 0x1_0000 + id }

  /** The parameter of a tiny entry. */
  function TinyParm(f: Footer): u16 { f.complete as int * 0x100 + f.count as int }

  /** The data of a converted entry. */
  function Body(t: Trace, e: Raw): seq<byte> {
    if Partial(e.footer) then BeBytes(Hash(t.hashPrefix, e.footer.stringId), 4)
    else if e.footer.format == Tiny then BeBytes(TinyParm(e.footer), 4)
    else if ParmBytes(e.footer) <= |e.parms| then e.parms[..ParmBytes(e.footer)]
    else []
  }

  /** The room its data takes: a complete big entry keeps a word more than it fills, and
      binary data is padded to whole words. */
  function Room(f: Footer): nat {
    if Partial(f) || f.format == Tiny then 4
    else if f.format == Big then 4 * f.count as nat + 4
    else (f.count as nat + 3) / 4 * 4
  }

  function StampedHead(t: Trace, f: Footer, stamp: u64): Head {
    Head(stamp / POW2_32, stamp % POW2_32, t.instanceId,
         if !Partial(f) && f.format == Binary then f.count as u16 else Room(f),
         if !Partial(f) && f.format == Binary then FIELD_BIN else FIELD_TRACE,
         Hash(t.hashPrefix, if Partial(f) then t.partialHash else f.stringId), 1)
  }

  /** What the format adds to the head. */
  function Finished(t: Trace, f: Footer, h: Head): Head {
    if Partial(f) then h.(hash := Hash(t.hashPrefix, t.partialHash), length := 4, tag := FIELD_TRACE)
    else h.(length := if f.format == Binary then f.count as u16 else Room(f))
  }

  function HeadOf(t: Trace, e: Raw, time: u64): Head
    requires t.hz > 0
  {
    StampedHead(t, e.footer, FspTime(time, t.hz))
  }

  /** The data buffer after an entry: its data, bytes the entry before it left there, its
      size, and the rest as it was. */
  function Filled(data: seq<byte>, body: seq<byte>, room: nat): (r: seq<byte>)
    requires |data| == DATA && |body| <= room <= DATA - 4
    ensures |r| == DATA
  {
    body + data[|body|..room] + BeBytes(STAMP_AND_HEAD + room + 4, 4) + data[room + 4..]
  }

  lemma SizeStored(data: seq<byte>, body: seq<byte>, room: nat, s: seq<byte>)
    requires |data| == DATA && |body| <= room <= DATA - 4 && s == body + data[|body|..]
    ensures s[..room] + BeBytes(STAMP_AND_HEAD + room + 4, 4) + s[room + 4..] == Filled(data, body, room)
  {
  }

  /** The entries the converter's local copies can hold. */
  predicate Convertible(e: Raw) {
    Shaped(e) && ParmBytes(e.footer) <= 256
  }

  lemma BodyFits(t: Trace, e: Raw)
    requires Convertible(e)
    ensures |Body(t, e)| <= Room(e.footer) <= DATA - 4 && |e.parms| >= ParmBytes(e.footer)
  {
  }

  function DataAfter(t: Trace, data: seq<byte>, e: Raw): (r: seq<byte>)
    requires |data| == DATA && Convertible(e)
    ensures |r| == DATA
  {
    BodyFits(t, e);
    Filled(data, Body(t, e), Room(e.footer))
  }

  function EntryBytes(t: Trace, data: seq<byte>, e: Raw, time: u64): (r: seq<byte>)
    requires |data| == DATA && Convertible(e) && t.hz > 0
    ensures |r| == STAMP_AND_HEAD + Room(e.footer) + 4
  {
    BodyFits(t, e);
    HeadBytes(HeadOf(t, e, time)) + DataAfter(t, data, e)[..Room(e.footer) + 4]
  }

  // ----- reading a converted entry

  function ReadHead(b: seq<byte>): Head
    requires |b| >= STAMP_AND_HEAD
  {
    FourBytes(b[..4]);
    FourBytes(b[4..8]);
    FourBytes(b[8..12]);
    TwoBytes(b[12..14]);
    TwoBytes(b[14..16]);
    FourBytes(b[16..20]);
    FourBytes(b[20..24]);
    Head(BeVal(b[..4]), BeVal(b[4..8]), BeVal(b[8..12]), BeVal(b[12..14]), BeVal(b[14..16]), BeVal(b[16..20]), BeVal(b[20..24]))
  }

  lemma FourRoundTrip(v: u32)
    ensures BeVal(BeBytes(v, 4)) == v
  {
    assert Pow256(4) == POW2_32;
    BeRoundTrip(v, 4);
  }

  lemma TwoRoundTrip(v: u16)
    ensures BeVal(BeBytes(v, 2)) == v
  {
    assert Pow256(2) == 0x1_0000;
    BeRoundTrip(v, 2);
  }

  lemma FieldsAt(a: seq<byte>, b: seq<byte>, c: seq<byte>, d: seq<byte>, e: seq<byte>, f: seq<byte>, g: seq<byte>, rest: seq<byte>)
    requires |a| == |b| == |c| == |f| == |g| == 4 && |d| == |e| == 2
    ensures var s := (a + b + c + d + e + f + g) + rest;
      && s[..4] == a && s[4..8] == b && s[8..12] == c && s[12..14] == d && s[14..16] == e && s[16..20] == f && s[20..24] == g
  {
  }

  lemma HeadRoundTrip(h: Head, rest: seq<byte>)
    ensures ReadHead(HeadBytes(h) + rest) == h
  {
    FieldsAt(BeBytes(h.tbh, 4), BeBytes(h.tbl, 4), BeBytes(h.tid, 4), BeBytes(h.length, 2), BeBytes(h.tag, 2),
             BeBytes(h.hash, 4), BeBytes(h.line, 4), rest);
    FourRoundTrip(h.tbh);
    FourRoundTrip(h.tbl);
    FourRoundTrip(h.tid);
    TwoRoundTrip(h.length);
    TwoRoundTrip(h.tag);
    FourRoundTrip(h.hash);
    FourRoundTrip(h.line);
  }

  /** The two halves of a hash. */
  ghost predicate HashOf(v: int, prefix: u16, id: u16) { v / 0x1_0000 == prefix && v % 0x1_0000 == id }

  lemma HashHalves(prefix: u16, id: u16)
    ensures HashOf(Hash(prefix, id), prefix, id)
  {
  }

  /** The bytes of data a converted entry announces. */
  function Announced(f: Footer): nat {
    if Partial(f) || f.format == Tiny then 4 else if f.format == Big then 4 * f.count as nat + 4 else f.count as nat
  }

  /** A reader finds in a converted entry the exact time, the instance, how much data there is
      and of what kind, and the hash: the trace's prefix above the string's id or, for a partial
      entry, above the id of the partial-entry string. */
  lemma EntryTells(t: Trace, data: seq<byte>, e: Raw, time: u64)
    requires |data| == DATA && Convertible(e) && t.hz > 0
    ensures var h := ReadHead(EntryBytes(t, data, e, time));
      && (time / t.hz < POW2_32 ==> h.tbh * 1_000_000_000 + h.tbl == time * 1_000_000_000 / t.hz && h.tbl < 1_000_000_000)
      && HashOf(h.hash, t.hashPrefix, if Partial(e.footer) then t.partialHash else e.footer.stringId)
      && h.tid == t.instanceId && h.line == 1 && h.length == Announced(e.footer)
      && h.tag == (if e.footer.format == Binary && !Partial(e.footer) then 0x4644 else 0x4654)
  {
    EntryHeadReads(t, data, e, time);
    TimeIsExact(time, t.hz);
    HashHalves(t.hashPrefix, if Partial(e.footer) then t.partialHash else e.footer.stringId);
  }

  /** The size of a converted entry, a whole number of words, is its last word. */
  lemma EntrySizeTells(t: Trace, data: seq<byte>, e: Raw, time: u64)
    requires |data| == DATA && Convertible(e) && t.hz > 0
    ensures var b := EntryBytes(t, data, e, time);
      |b| == 24 + (Announced(e.footer) + 3) / 4 * 4 + 4 && BeVal(b[|b| - 4..]) == |b|
  {
    BodyFits(t, e);
    RoomIs(e.footer);
    var room := Room(e.footer);
    SizeLast(HeadBytes(HeadOf(t, e, time)), data, Body(t, e), room, STAMP_AND_HEAD + room + 4);
  }

  lemma RoomIs(f: Footer)
    ensures Room(f) == (Announced(f) + 3) / 4 * 4
  {
  }

  lemma SizeLast(head: seq<byte>, data: seq<byte>, body: seq<byte>, room: nat, size: u32)
    requires |head| == STAMP_AND_HEAD && |data| == DATA && |body| <= room <= DATA - 4 && size == STAMP_AND_HEAD + room + 4
    ensures var b := head + Filled(data, body, room)[..room + 4]; |b| == size && BeVal(b[size - 4..]) == size
  {
    var b, word := head + Filled(data, body, room)[..room + 4], BeBytes(size, 4);
    FourRoundTrip(size);
    assert b[size - 4..] == word;
  }

  /** And the traced data: parameters or bytes as they were traced, the parameter of a tiny
      entry in two bytes; for a partial entry, the hash of its string. */
  lemma EntryKeepsData(t: Trace, data: seq<byte>, e: Raw, time: u64)
    requires |data| == DATA && Convertible(e) && t.hz > 0
    ensures |e.parms| >= ParmBytes(e.footer)
    ensures var b, f := EntryBytes(t, data, e, time)[STAMP_AND_HEAD..], e.footer;
      if Partial(f) then HashOf(BeVal(b[..4]), t.hashPrefix, f.stringId)
      else if f.format == Tiny then b[..4] == [0, 0, f.complete, f.count]
      else
        var n := if f.format == Big then 4 * f.count as nat else f.count as nat;
        n <= |b| && n <= |e.parms| && b[..n] == e.parms[..n]
  {
    EntryDataReads(t, data, e, time);
    BodyReads(t, e);
    HashHalves(t.hashPrefix, e.footer.stringId);
    TinyBytes(e.footer);
  }

  lemma TinyBytes(f: Footer)
    ensures BeBytes(TinyParm(f), 4) == [0, 0, f.complete, f.count]
  {
    var v := TinyParm(f);
    assert v / 256 == f.complete as int && v % 256 == f.count as int;
    assert v / 256 / 256 == 0 && v / 256 % 256 == f.complete as int;
    assert BeBytes(0, 2) == [0, 0];
    assert BeBytes(v / 256, 3) == BeBytes(0, 2) + [f.complete];
  }

  lemma BodyReads(t: Trace, e: Raw)
    requires |e.parms| >= ParmBytes(e.footer)
    ensures var b, f := Body(t, e), e.footer;
      if Partial(f) then |b| == 4 && BeVal(b) == Hash(t.hashPrefix, f.stringId)
      else if f.format == Tiny then b == BeBytes(TinyParm(f), 4)
      else b == e.parms[..ParmBytes(f)]
  {
    if Partial(e.footer) {
      FourRoundTrip(Hash(t.hashPrefix, e.footer.stringId));
    }
  }

  lemma EntryHeadReads(t: Trace, data: seq<byte>, e: Raw, time: u64)
    requires |data| == DATA && Convertible(e) && t.hz > 0
    ensures ReadHead(EntryBytes(t, data, e, time)) == HeadOf(t, e, time)
  {
    BodyFits(t, e);
    HeadRoundTrip(HeadOf(t, e, time), DataAfter(t, data, e)[..Room(e.footer) + 4]);
  }

  lemma EntryDataReads(t: Trace, data: seq<byte>, e: Raw, time: u64)
    requires |data| == DATA && Convertible(e) && t.hz > 0
    ensures |Body(t, e)| <= Room(e.footer) && |e.parms| >= ParmBytes(e.footer)
    ensures EntryBytes(t, data, e, time)[STAMP_AND_HEAD..][..|Body(t, e)|] == Body(t, e)
  {
    BodyFits(t, e);
    BodyAt(HeadBytes(HeadOf(t, e, time)), data, Body(t, e), Room(e.footer));
  }

  lemma BodyAt(head: seq<byte>, data: seq<byte>, body: seq<byte>, room: nat)
    requires |head| == STAMP_AND_HEAD && |data| == DATA && |body| <= room <= DATA - 4
    ensures (head + Filled(data, body, room)[..room + 4])[STAMP_AND_HEAD..][..|body|] == body
  {
  }

  /** The converter's local `largest_fsp_entry_t`. */
  class FspEntry {
    var head: Head
    const data: array<byte>

    constructor (head: Head, data: array<byte>)
      ensures this.head == head && this.data == data
    {
      this.head, this.data := head, data;
    }

    /** The first `size` bytes of the structure. */
    method Read(size: nat) returns (s: seq<byte>)
      requires STAMP_AND_HEAD <= size <= STAMP_AND_HEAD + data.Length
      ensures s == HeadBytes(head) + data[..][..size - STAMP_AND_HEAD]
    {
      s := HeadBytes(head) + data[..][..size - STAMP_AND_HEAD];
    }

    method Store(at: nat, bytes: seq<byte>)
      requires at + |bytes| <= data.Length
      modifies data
      ensures data[..] == old(data[..])[..at] + bytes + old(data[..])[at + |bytes|..]
    {
      forall i | 0 <= i < |bytes| {
        data[at + i] := bytes[i];
      }
    }

    /** `pte2fte` */
    method Convert(t: Trace, e: Raw, time: u64) returns (size: nat)
      requires data.Length == DATA && Convertible(e) && t.hz > 0
      modifies this`head, data
      ensures head == HeadOf(t, e, time) && data[..] == DataAfter(t, old(data[..]), e)
      ensures size == STAMP_AND_HEAD + Room(e.footer) + 4
    {
      size := ConvertStamped(t, e, FspTime(time, t.hz));
    }

    /** The converted entry, as the caller copies it. */
    method Render(t: Trace, e: Raw, time: u64) returns (entry: seq<byte>)
      requires data.Length == DATA && Convertible(e) && t.hz > 0
      modifies this`head, data
      ensures entry == EntryBytes(t, old(data[..]), e, time) && data[..] == DataAfter(t, old(data[..]), e)
    {
      BodyFits(t, e);
      var size := Convert(t, e, time);
      entry := Read(size);
    }

    method ConvertStamped(t: Trace, e: Raw, stamp: u64) returns (size: nat)
      requires data.Length == DATA && Convertible(e)
      modifies this`head, data
      ensures head == StampedHead(t, e.footer, stamp) && data[..] == DataAfter(t, old(data[..]), e)
      ensures size == STAMP_AND_HEAD + Room(e.footer) + 4
    {
      head := Head(stamp / POW2_32, stamp % POW2_32, t.instanceId, head.length,
        if e.footer.format == Binary then FIELD_BIN else FIELD_TRACE, Hash(t.hashPrefix, e.footer.stringId), 1);
      size := StoreData(t, e);
    }

    method StoreData(t: Trace, e: Raw) returns (size: nat)
      requires data.Length == DATA && Convertible(e) && head.hash == Hash(t.hashPrefix, e.footer.stringId)
      modifies this`head, data
      ensures data[..] == DataAfter(t, old(data[..]), e) && size == STAMP_AND_HEAD + Room(e.footer) + 4
      ensures head == Finished(t, e.footer, old(head))
    {
      BodyFits(t, e);
      var entrySize := StoreBody(t, e);
      size := StoreSize(entrySize, old(data[..]), Body(t, e));
    }

    /** The trailing size word. */
    method StoreSize(entrySize: nat, ghost before: seq<byte>, ghost body: seq<byte>) returns (size: nat)
      requires |before| == DATA == data.Length && |body| <= entrySize - STAMP_AND_HEAD <= DATA - 4
      requires data[..] == body + before[|body|..]
      modifies data
      ensures data[..] == Filled(before, body, entrySize - STAMP_AND_HEAD) && size == entrySize + 4
    {
      SizeStored(before, body, entrySize - STAMP_AND_HEAD, data[..]);
      Store(entrySize - STAMP_AND_HEAD, BeBytes(entrySize + 4, 4));
      size := entrySize + 4;
    }

    /** The part of `pte2fte` that depends on the format. */
    method StoreBody(t: Trace, e: Raw) returns (entrySize: nat)
      requires data.Length == DATA && head.hash == Hash(t.hashPrefix, e.footer.stringId)
      requires |Body(t, e)| <= DATA && e.footer.format != Empty
      requires |e.parms| >= ParmBytes(e.footer) && ParmBytes(e.footer) <= 256
      modifies this`head, data
      ensures data[..] == Body(t, e) + old(data[..])[|Body(t, e)|..]
      ensures entrySize == STAMP_AND_HEAD + Room(e.footer)
      ensures head == Finished(t, e.footer, old(head))
    {
      if e.footer.format == Tiny {
        entrySize := StoreWord(TinyParm(e.footer));
      } else if e.footer.complete == 0 {
        entrySize := StorePartial(t);
      } else {
        entrySize := StoreParms(e.footer, e.parms);
      }
    }

    /** The hash that is there becomes the data. */
    method StorePartial(t: Trace) returns (entrySize: nat)
      requires data.Length == DATA
      modifies this`head, data
      ensures data[..] == BeBytes(old(head.hash), 4) + old(data[..])[4..] && entrySize == STAMP_AND_HEAD + 4
      ensures head == old(head).(hash := Hash(t.hashPrefix, t.partialHash), length := 4, tag := FIELD_TRACE)
    {
      entrySize := StoreWord(head.hash);
      head := head.(hash := Hash(t.hashPrefix, t.partialHash), tag := FIELD_TRACE);
    }

    /** An entry with one word of data. */
    method StoreWord(word: u32) returns (entrySize: nat)
      requires data.Length == DATA
      modifies this`head, data
      ensures data[..] == BeBytes(word, 4) + old(data[..])[4..]
      ensures entrySize == STAMP_AND_HEAD + 4 && head == old(head).(length := 4)
    {
      Store(0, BeBytes(word, 4));
      head := head.(length := 4);
      entrySize := STAMP_AND_HEAD + 4;
    }

    method StoreParms(f: Footer, parms: seq<byte>) returns (entrySize: nat)
      requires data.Length == DATA && (f.format == Big || f.format == Binary)
      requires |parms| >= ParmBytes(f) && ParmBytes(f) <= 256 && f.complete != 0
      modifies this`head, data
      ensures data[..] == parms[..ParmBytes(f)] + old(data[..])[ParmBytes(f)..]
      ensures entrySize == STAMP_AND_HEAD + Room(f)
      ensures head == old(head).(length := if f.format == Binary then f.count as u16 else Room(f))
    {
      var n;
      if f.format == Big {
        n := 4 * f.count as nat;
        head := head.(length := n + 4);
        entrySize := STAMP_AND_HEAD + n + 4;
      } else {
        n := f.count as nat;
        head := head.(length := n);
        entrySize := STAMP_AND_HEAD + n;
        entrySize := (entrySize + 3) / 4 * 4;
      }
      Store(0, parms[..n]);
    }
  }
}
