/** The response a chip-op sends downstream: a header, optional failure data, and a last
    word that leads a reader back to the header. */
module Response {
  import opened Bytes
  import opened Fifo

  function Pack(hi: u16, lo: u16): u32 { hi * POW2_16 + lo }

  /** `sbeRespGenHdr_t`, two words. */
  datatype RespHdr = RespHdr(cmdClass: u8, command: u8, primary: u16, secondary: u16)

  function RespWords(h: RespHdr): (w: seq<u32>)
    ensures |w| == 2
  {
    [Pack(0xC0DE, h.cmdClass * 0x100 + h.command), Pack(h.primary, h.secondary)]
  }

  /** `sbeResponseFfdc_t`, three words; its length field has 16 bits. */
  datatype FfdcHdr = FfdcHdr(lenInWords: u16, seqId: u16, cmdClass: u8, command: u8, fapiRc: u32)

  function FfdcWords(h: FfdcHdr): (w: seq<u32>)
    ensures |w| == 3
  {
    [Pack(0xFFDC, h.lenInWords), Pack(h.seqId, h.cmdClass * 0x100 + h.command), h.fapiRc]
  }

  // ----- what a reader of the words finds

  lemma PackReads(hi: u16, lo: u16)
    ensures Pack(hi, lo) / 0x1_0000 == hi && Pack(hi, lo) % 0x1_0000 == lo
  {
  }

  /** A word holds a value and, below it, two bytes. */
  ghost predicate HoldsBytes(w: u32, hi: u16, b: u8, c: u8) {
    w / 0x1_0000 == hi && w % 0x1_0000 / 0x100 == b && w % 0x1_0000 % 0x100 == c
  }

  lemma PackBytes(hi: u16, b: u8, c: u8)
    ensures HoldsBytes(Pack(hi, b * 0x100 + c), hi, b, c)
  {
    var low: u16 := b * 0x100 + c;
    PackReads(hi, low);
    assert low / 0x100 == b && low % 0x100 == c;
  }

  /** Two words that say they are a response header, and its fields. */
  ghost predicate ReadsAsHeader(w: seq<u32>, h: RespHdr) {
    && |w| == 2 && HoldsBytes(w[0], 0xC0DE, h.cmdClass, h.command)
    && w[1] / 0x1_0000 == h.primary && w[1] % 0x1_0000 == h.secondary
  }

  lemma HeaderReads(h: RespHdr)
    ensures ReadsAsHeader(RespWords(h), h)
  {
    PackBytes(0xC0DE, h.cmdClass, h.command);
    PackReads(h.primary, h.secondary);
  }

  /** Three words that say they are failure data of `length` words, as far as 16 bits hold it. */
  ghost predicate ReadsAsFfdc(w: seq<u32>, length: nat, seqId: u16, cmdClass: u8, command: u8, fapiRc: u32) {
    && |w| == 3 && w[0] / 0x1_0000 == 0xFFDC && w[0] % 0x1_0000 == length % 0x1_0000
    && HoldsBytes(w[1], seqId, cmdClass, command) && w[2] == fapiRc
  }

  lemma FfdcReads(h: FfdcHdr, length: nat)
    requires h.lenInWords == length % POW2_16
    ensures ReadsAsFfdc(FfdcWords(h), length, h.seqId, h.cmdClass, h.command, h.fapiRc)
  {
    PackReads(0xFFDC, h.lenInWords);
    PackBytes(h.seqId, h.cmdClass, h.command);
  }

  // ----- the internal failure data package

  /** A user data blob: its identifier bits and its contents. */
  datatype Blob = Blob(id: u16, words: seq<u32>)

  /** The two numbers have a one bit in common: `a & b` is not zero. */
  predicate BitsMeet(a: nat, b: nat) {
    a > 0 && b > 0 && ((a % 2 == 1 && b % 2 == 1) || BitsMeet(a / 2, b / 2))
  }

  predicate Selected(b: Blob, config: u16) { BitsMeet(b.id, config) }

  /** A blob the code can announce: not empty, its byte length in 16 bits. */
  predicate Announceable(b: Blob) { 0 < |b.words| && 4 * |b.words| < POW2_16 }

  function BlobWords(b: Blob): (w: seq<u32>)
    requires Announceable(b)
    ensures |w| == 1 + |b.words|
  {
    [Pack(b.id, 4 * |b.words|)] + b.words
  }

  function Part(b: Blob, config: u16): seq<u32>
    requires Announceable(b)
  {
    if Selected(b, config) then BlobWords(b) else []
  }

  /** The selected blobs, each after its identifier. */
  function Body(blobs: seq<Blob>, config: u16): seq<u32>
    requires forall i :: 0 <= i < |blobs| ==> Announceable(blobs[i])
  {
    if blobs == [] then []
    else Body(blobs[..|blobs| - 1], config) + Part(blobs[|blobs| - 1], config)
  }

  /** What the global state contributes to the package. */
  datatype Failure = Failure(primary: u16, secondary: u16, seqId: u16, cmdClass: u8, command: u8,
                             commitId: u32, ddLevel: u32)

  function DumpFields(config: u16): u32 {
    (if config % 2 == 1 then 0x8000_0000 else 0) + (if config / 2 % 2 == 1 then 0x4000_0000 else 0)
  }

  function DataHdrWords(f: Failure, config: u16): (w: seq<u32>)
    ensures |w| == 4
  {
    [Pack(f.primary, f.secondary), f.commitId, f.ddLevel, DumpFields(config)]
  }

  const FAPI_RC_SEE_DATA: u32 := 0x0200_0001

  /** The package as a receiver should see it: its header announces its own length. */
  function Package(f: Failure, blobs: seq<Blob>, config: u16): seq<u32>
    requires forall i :: 0 <= i < |blobs| ==> Announceable(blobs[i])
  {
    var body := Body(blobs, config);
    FfdcWords(FfdcHdr((7 + |body|) % POW2_16, f.seqId, f.cmdClass, f.command, FAPI_RC_SEE_DATA))
      + DataHdrWords(f, config) + body
  }

  /** The two numbers have a one bit in common. */
  ghost predicate ShareBit(a: nat, b: nat) { exists i: nat :: BitSet(a, i) && BitSet(b, i) }

  lemma {:induction false} MeetIsShare(a: nat, b: nat)
    ensures BitsMeet(a, b) <==> ShareBit(a, b)
    decreases a
  {
    BitAbove(a, 0);
    BitAbove(b, 0);
    if a == 0 || b == 0 {
      NoBits(a, b);
    } else {
      MeetIsShare(a / 2, b / 2);
      if i: nat :| BitSet(a / 2, i) && BitSet(b / 2, i) {
        BitAbove(a, i);
        BitAbove(b, i);
        assert BitSet(a, i + 1) && BitSet(b, i + 1);
      }
      if i: nat :| BitSet(a, i) && BitSet(b, i) {
        ShareBelow(a, b, i);
      }
    }
  }

  lemma ShareBelow(a: nat, b: nat, i: nat)
    requires BitSet(a, i) && BitSet(b, i)
    ensures (a % 2 == 1 && b % 2 == 1) || ShareBit(a / 2, b / 2)
  {
    if i > 0 {
      BitAbove(a, i - 1);
      BitAbove(b, i - 1);
      assert BitSet(a / 2, i - 1) && BitSet(b / 2, i - 1);
    }
  }

  lemma NoBits(a: nat, b: nat)
    requires a == 0 || b == 0
    ensures !ShareBit(a, b)
  {
  }

  /** The blobs one of whose bits is asked for. */
  ghost function Chosen(blobs: seq<Blob>, config: u16): seq<Blob> {
    if blobs == [] then []
    else
      var last := blobs[|blobs| - 1];
      Chosen(blobs[..|blobs| - 1], config) + if ShareBit(last.id, config) then [last] else []
  }

  /** The reader's side: each identifier word says which blob follows and how many bytes. */
  function ReadBlobs(w: seq<u32>): seq<Blob>
    decreases |w|
  {
    if w == [] then []
    else
      var n := w[0] % 0x1_0000 / 4;
      if n < |w| then [Blob(w[0] / 0x1_0000, w[1..1 + n])] + ReadBlobs(w[1 + n..]) else []
  }

  lemma BlobReads(b: Blob, rest: seq<u32>)
    requires Announceable(b)
    ensures ReadBlobs(BlobWords(b) + rest) == [b] + ReadBlobs(rest)
  {
    var w := BlobWords(b) + rest;
    PackReads(b.id, 4 * |b.words|);
    assert w[1..1 + |b.words|] == b.words && w[1 + |b.words|..] == rest;
  }

  lemma {:induction false} BodyReads(blobs: seq<Blob>, config: u16, rest: seq<u32>)
    requires forall i :: 0 <= i < |blobs| ==> Announceable(blobs[i])
    ensures ReadBlobs(Body(blobs, config) + rest) == Chosen(blobs, config) + ReadBlobs(rest)
    decreases |blobs|
  {
    if blobs == [] {
      assert Body(blobs, config) + rest == rest;
    } else {
      var front, last := blobs[..|blobs| - 1], blobs[|blobs| - 1];
      var part := Part(last, config);
      var tail := if ShareBit(last.id, config) then [last] else [];
      BodyReads(front, config, part + rest);
      PartReads(last, config, rest);
      ReadsOn(Body(front, config), part, rest, Chosen(front, config), tail);
    }
  }

  lemma ReadsOn(a: seq<u32>, b: seq<u32>, rest: seq<u32>, x: seq<Blob>, y: seq<Blob>)
    requires ReadBlobs(a + (b + rest)) == x + ReadBlobs(b + rest) && ReadBlobs(b + rest) == y + ReadBlobs(rest)
    ensures ReadBlobs(a + b + rest) == x + y + ReadBlobs(rest)
  {
    assert a + b + rest == a + (b + rest);
  }

  lemma PartReads(b: Blob, config: u16, rest: seq<u32>)
    requires Announceable(b)
    ensures ReadBlobs(Part(b, config) + rest) == (if ShareBit(b.id, config) then [b] else []) + ReadBlobs(rest)
  {
    MeetIsShare(b.id, config);
    if Selected(b, config) {
      BlobReads(b, rest);
    } else {
      assert Part(b, config) + rest == rest;
    }
  }

  lemma DumpReads(config: u16)
    ensures var d := DumpFields(config);
      && (d / 0x8000_0000 == 1 <==> BitSet(config, 0)) && (d / 0x4000_0000 % 2 == 1 <==> BitSet(config, 1))
      && d % 0x4000_0000 == 0
  {
    BitAbove(config, 0);
    BitAbove(config / 2, 0);
  }

  /** What a receiver reads in a package: its own length, the failed command, its status, the
      firmware, which dumps were asked for, and exactly the blobs chosen, in order. */
  lemma PackageTells(f: Failure, blobs: seq<Blob>, config: u16)
    requires forall i :: 0 <= i < |blobs| ==> Announceable(blobs[i])
    ensures var p := Package(f, blobs, config);
      && |p| >= 7 && ReadsAsFfdc(p[..3], |p|, f.seqId, f.cmdClass, f.command, 0x0200_0001)
      && p[3] / 0x1_0000 == f.primary && p[3] % 0x1_0000 == f.secondary && p[4] == f.commitId && p[5] == f.ddLevel
      && (p[6] / 0x8000_0000 == 1 <==> BitSet(config, 0)) && (p[6] / 0x4000_0000 % 2 == 1 <==> BitSet(config, 1))
      && p[6] % 0x4000_0000 == 0 && ReadBlobs(p[7..]) == Chosen(blobs, config)
  {
    var body, n := Body(blobs, config), 7 + |Body(blobs, config)|;
    var h := FfdcHdr(n % POW2_16, f.seqId, f.cmdClass, f.command, FAPI_RC_SEE_DATA);
    FfdcReads(h, n);
    PackReads(f.primary, f.secondary);
    DumpReads(config);
    BodyReads(blobs, config, []);
    assert body + [] == body;
    PackageParts(FfdcWords(h), DataHdrWords(f, config), body);
  }

  lemma PackageParts(a: seq<u32>, b: seq<u32>, c: seq<u32>)
    requires |a| == 3 && |b| == 4
    ensures var p := a + b + c;
      |p| == 7 + |c| && p[..3] == a && p[3] == b[0] && p[4] == b[1] && p[5] == b[2] && p[6] == b[3] && p[7..] == c
  {
  }

  lemma BodyStep(had: seq<u32>, blobs: seq<Blob>, config: u16, i: nat)
    requires i < |blobs| && forall k :: 0 <= k < |blobs| ==> Announceable(blobs[k])
    ensures had + Body(blobs[..i + 1], config) == had + Body(blobs[..i], config) + Part(blobs[i], config)
    ensures |Body(blobs[..i + 1], config)| == |Body(blobs[..i], config)| + |Part(blobs[i], config)|
  {
    assert blobs[..i + 1][..i] == blobs[..i];
  }

  lemma AddInField(a: nat, k: nat)
    ensures (a % POW2_16 + (4 * k + 4) / 4) % POW2_16 == (a + 1 + k) % POW2_16
  {
    assert (4 * k + 4) / 4 == k + 1;
  }

  function Field16(n: nat): u16 { n % POW2_16 }

  /** The length field after a blob of so many words. */
  function Announce(n: u16, words: nat, selected: bool): u16 {
    if selected then Field16(n + (4 * words + 4) / 4) else n
  }

  lemma BodyLength(blobs: seq<Blob>, config: u16, i: nat, selected: bool, was: nat, now: nat)
    requires i < |blobs| && (forall k :: 0 <= k < |blobs| ==> Announceable(blobs[k])) && selected == Selected(blobs[i], config)
    requires was == |Body(blobs[..i], config)| && now == was + if selected then 1 + |blobs[i].words| else 0
    ensures now == |Body(blobs[..i + 1], config)|
  {
    BodyStep([], blobs, config, i);
  }

  lemma FieldStep(was: nat, now: nat, words: nat, selected: bool)
    requires now == was + if selected then 1 + words else 0
    ensures Field16(7 + now) == Announce(Field16(7 + was), words, selected)
  {
    AddInField(7 + was, words);
  }

  /** The length announced for a configuration, added up in a 16-bit field. */
  method AnnouncedLength(blobs: seq<Blob>, config: u16) returns (n: u16)
    requires forall i :: 0 <= i < |blobs| ==> Announceable(blobs[i])
    ensures n == (7 + |Body(blobs, config)|) % POW2_16
  {
    n := (12 + 16) / 4;
    ghost var total: nat := 0;
    for i := 0 to |blobs|
      invariant n == Field16(7 + total) && total == |Body(blobs[..i], config)|
    {
      var selected, words := Selected(blobs[i], config), |blobs[i].words|;
      ghost var now := total + if selected then 1 + words else 0;
      BodyLength(blobs, config, i, selected, total, now);
      FieldStep(total, now, words, selected);
      n := Announce(n, words, selected);
      total := now;
    }
    assert blobs[..|blobs|] == blobs;
  }

  lemma FirstThree(had: seq<u32>, p: seq<u32>)
    requires |p| >= 3
    ensures (had + p)[|had|..|had| + 3] == p[..3]
  {
  }

  lemma Regroup(a: seq<u32>, b: seq<u32>, c: seq<u32>)
    ensures a + b + c == a + (b + c)
  {
  }

  /** `SbeFFDCPackage`: the two headers of an internal failure data package. */
  class FfdcPackage {
    var header: FfdcHdr
    var dataHeader: seq<u32>

    constructor ()
      ensures header.fapiRc == FAPI_RC_SEE_DATA
    {
      header, dataHeader := FfdcHdr(3, 0, 0, 0, FAPI_RC_SEE_DATA), [0, 0, 0, 0];
    }

    /** `updateUserDataHeader`. */
    method UpdateUserDataHeader(f: Failure, blobs: seq<Blob>, config: u16)
      requires header.fapiRc == FAPI_RC_SEE_DATA
      requires forall i :: 0 <= i < |blobs| ==> Announceable(blobs[i])
      modifies this
      ensures FfdcWords(header) + dataHeader + Body(blobs, config) == Package(f, blobs, config)
      ensures |dataHeader| == 4 && header.lenInWords == |Package(f, blobs, config)| % POW2_16
    {
      var n := AnnouncedLength(blobs, config);
      header := FfdcHdr(n, f.seqId, f.cmdClass, f.command, header.fapiRc);
      dataHeader := DataHdrWords(f, config);
    }

    /** `sendOverFIFO`: the package goes out whole, as long as its header says, and the
        number of words sent is reported; or nothing is sent when it is not wanted. */
    method SendOverFifo(fifo: DownFifo, f: Failure, blobs: seq<Blob>, config: u16, wanted: bool)
        returns (rc: Rc, wordsSent: nat)
      requires fifo.Valid() && header.fapiRc == FAPI_RC_SEE_DATA
      requires forall i :: 0 <= i < |blobs| ==> Announceable(blobs[i])
      modifies this, fifo
      ensures fifo.Valid()
      ensures !wanted ==> rc == Success && wordsSent == 0 && fifo.sent == old(fifo.sent)
      ensures rc == Success && wanted ==>
        fifo.sent == old(fifo.sent) + Package(f, blobs, config) && wordsSent == |Package(f, blobs, config)|
      ensures rc == Success && wanted ==>
        var at := |old(fifo.sent)|;
        at + 3 <= |fifo.sent| && ReadsAsFfdc(fifo.sent[at..at + 3], wordsSent, f.seqId, f.cmdClass, f.command, 0x0200_0001)
    {
      rc, wordsSent := Success, 0;
      if !wanted {
        return;
      }
      UpdateUserDataHeader(f, blobs, config);
      ghost var had, headers, body := fifo.sent, FfdcWords(header) + dataHeader, Body(blobs, config);
      var length;
      rc, length := SendHeaders(fifo);
      if rc != Success {
        return;
      }
      wordsSent := wordsSent + length;
      rc, length := SendBlobs(fifo, blobs, config);
      wordsSent := wordsSent + length;
      Regroup(had, headers, body);
      PackageTells(f, blobs, config);
      FirstThree(had, Package(f, blobs, config));
    }

    method SendHeaders(fifo: DownFifo) returns (rc: Rc, words: nat)
      requires fifo.Valid() && |dataHeader| == 4
      modifies fifo
      ensures fifo.Valid()
      ensures rc == Success ==>
        fifo.sent == old(fifo.sent) + (FfdcWords(header) + dataHeader) && words == |FfdcWords(header) + dataHeader|
    {
      ghost var had := fifo.sent;
      rc, words := fifo.EnqMult(FfdcWords(header), 3);
      if rc != Success {
        return;
      }
      var length;
      rc, length := fifo.EnqMult(dataHeader, 4);
      words := words + length;
      Regroup(had, FfdcWords(header), dataHeader);
    }

    /** The identifier word of a blob, then the blob. */
    method SendBlob(fifo: DownFifo, b: Blob) returns (rc: Rc, words: nat)
      requires fifo.Valid() && Announceable(b)
      modifies fifo
      ensures fifo.Valid()
      ensures rc == Success ==> fifo.sent == old(fifo.sent) + BlobWords(b) && words == |BlobWords(b)|
    {
      var id := [Pack(b.id, 4 * |b.words|)];
      rc, words := fifo.EnqMult(id, 1);
      if rc != Success {
        return;
      }
      var n;
      rc, n := fifo.EnqMult(b.words, |b.words|);
      words := words + n;
    }

    method SendBlobs(fifo: DownFifo, blobs: seq<Blob>, config: u16) returns (rc: Rc, words: nat)
      requires fifo.Valid()
      requires forall i :: 0 <= i < |blobs| ==> Announceable(blobs[i])
      modifies fifo
      ensures fifo.Valid()
      ensures rc == Success ==> fifo.sent == old(fifo.sent) + Body(blobs, config) && words == |Body(blobs, config)|
    {
      ghost var had := fifo.sent;
      rc, words := Success, 0;
      for i := 0 to |blobs|
        invariant fifo.Valid() && rc == Success
        invariant fifo.sent == had + Body(blobs[..i], config) && words == |Body(blobs[..i], config)|
      {
        BodyStep(had, blobs, config, i);
        if Selected(blobs[i], config) {
          var n;
          rc, n := SendBlob(fifo, blobs[i]);
          if rc != Success {
            return;
          }
          words := words + n;
        }
      }
      assert blobs[..|blobs|] == blobs;
    }
  }

  // ----- the response frame

  /** A frame opens with the response header and closes with its own length, so that a
      reader who has the last word finds the header. */
  ghost predicate Frame(words: seq<u32>, h: RespHdr) {
    && |words| >= 3 && ReadsAsHeader(words[..2], h)
    && words[|words| - 1] == |words| % POW2_32
  }

  /** The failure data of a hardware procedure: its return code and its words. */
  datatype HwpFailure = HwpFailure(fapiRc: u32, words: seq<u32>, length: nat)

  predicate Sendable(p: HwpFailure) { p.words != [] && p.length <= |p.words| }

  /** The header that announces a procedure's failure data. */
  function ProcedureHdr(h: RespHdr, p: HwpFailure): FfdcHdr {
    FfdcHdr((3 + p.length) % POW2_16, 0, h.cmdClass, h.command, p.fapiRc)
  }

  /** With no data to send, the first look after the three header words finds room: the
      enqueue loop sends a word nobody announced. */
  ghost predicate Stray(slots: seq<Slot>, from: nat, p: HwpFailure)
    requires from <= |slots|
  {
    p.length == 0 && var at := EnqueueFrom(slots, from, 0, 3).taken; at < |slots| && slots[at].Ready?
  }

  function WordsOf(p: HwpFailure, stray: bool): seq<u32>
    requires Sendable(p)
  {
    p.words[..if stray then 1 else p.length]
  }

  lemma AnnouncementReads(had: seq<u32>, h: RespHdr, p: HwpFailure, stray: bool, words: nat)
    requires Sendable(p) && (stray ==> p.length == 0) && words == 3 + |WordsOf(p, stray)|
    ensures var sent := had + (FfdcWords(ProcedureHdr(h, p)) + WordsOf(p, stray));
      && |had| + 3 <= |sent|
      && ReadsAsFfdc(sent[|had|..|had| + 3], 3 + p.length, 0, h.cmdClass, h.command, p.fapiRc)
      && (sent[|had|] % 0x1_0000 == words % 0x1_0000 <==> !stray)
  {
    var w := FfdcWords(ProcedureHdr(h, p));
    FfdcReads(ProcedureHdr(h, p), 3 + p.length);
    FirstThree(had, w + WordsOf(p, stray));
  }

  /** The procedure's failure data: three header words that announce the whole, then the
      data. The announcement is right exactly when no stray word goes out. */
  method SendHwpFailure(fifo: DownFifo, h: RespHdr, p: HwpFailure) returns (rc: Rc, words: nat)
    requires fifo.Valid() && Sendable(p)
    modifies fifo
    ensures fifo.Valid()
    ensures rc == Success ==>
      var stray := Stray(fifo.slots, old(fifo.taken), p);
      && fifo.sent == old(fifo.sent) + (FfdcWords(ProcedureHdr(h, p)) + WordsOf(p, stray))
      && words == 3 + |WordsOf(p, stray)|
    ensures rc == Success ==>
      var at := |old(fifo.sent)|;
      && at + 3 <= |fifo.sent| && ReadsAsFfdc(fifo.sent[at..at + 3], 3 + p.length, 0, h.cmdClass, h.command, p.fapiRc)
      && (fifo.sent[at] % 0x1_0000 == words % 0x1_0000 <==> !Stray(fifo.slots, old(fifo.taken), p))
  {
    ghost var had, stray := fifo.sent, Stray(fifo.slots, fifo.taken, p);
    rc, words := fifo.EnqMult(FfdcWords(ProcedureHdr(h, p)), 3);
    if rc != Success {
      return;
    }
    var n;
    rc, n := fifo.EnqMult(p.words, p.length);
    words := words + n;
    Regroup(had, FfdcWords(ProcedureHdr(h, p)), p.words[..n]);
    if rc == Success {
      AnnouncementReads(had, h, p, stray, words);
    }
  }

  /** In terms of the looks alone: the announced words are the words sent if and only if
      there was data or the first look for it found the FIFO full. */
  lemma AnnouncedIsSent(slots: seq<Slot>, from: nat, p: HwpFailure)
    requires from <= |slots|
    requires var e := EnqueueFrom(slots, from, 0, 3); EnqueueFrom(slots, e.taken, 0, p.length).rc == Success
    ensures var e := EnqueueFrom(slots, from, 0, 3);
      3 + EnqueueFrom(slots, e.taken, 0, p.length).count == 3 + p.length <==> p.length > 0 || slots[e.taken].Full?
  {
    var at := EnqueueFrom(slots, from, 0, 3).taken;
    if p.length > 0 {
      EnqueueCounts(slots, at, 0, p.length);
    } else {
      NoneAsked(slots, at);
    }
  }

  /** A FIFO that always has room gets four words where three were announced. */
  lemma StrayWordGoesOut(fapiRc: u32, w: u32)
    ensures var slots, p := [Ready(true), Ready(true), Ready(true), Ready(true)], HwpFailure(fapiRc, [w], 0);
      Stray(slots, 0, p) && EnqueueFrom(slots, 3, 0, 0) == Enqueued(Success, 1, 4)
  {
    var slots := [Ready(true), Ready(true), Ready(true), Ready(true)];
    assert EnqueueFrom(slots, 2, 2, 3) == Enqueued(Success, 3, 3);
    assert EnqueueFrom(slots, 1, 1, 3) == Enqueued(Success, 3, 3);
  }

  ghost function Procedure(h: RespHdr, hwp: HwpFailure, stray: bool): seq<u32>
    requires Sendable(hwp)
  {
    if hwp.fapiRc == 0 then [] else FfdcWords(ProcedureHdr(h, hwp)) + WordsOf(hwp, stray)
  }

  ghost function Internal(h: RespHdr, f: Failure, blobs: seq<Blob>, wanted: bool): seq<u32>
    requires forall i :: 0 <= i < |blobs| ==> Announceable(blobs[i])
  {
    if wanted && (h.primary != 0 || h.secondary != 0) then Package(f, blobs, 0xFFFF) else []
  }

  /** The whole response: header, procedure data, internal package, distance. */
  ghost function WholeFrame(h: RespHdr, hwp: HwpFailure, f: Failure, blobs: seq<Blob>, wanted: bool, stray: bool): seq<u32>
    requires Sendable(hwp)
    requires forall i :: 0 <= i < |blobs| ==> Announceable(blobs[i])
  {
    var words := RespWords(h) + (Procedure(h, hwp, stray) + Internal(h, f, blobs, wanted));
    words + [(|words| + 1) % POW2_32]
  }

  method SendProcedure(fifo: DownFifo, h: RespHdr, hwp: HwpFailure) returns (rc: Rc, words: nat)
    requires fifo.Valid() && Sendable(hwp)
    modifies fifo
    ensures fifo.Valid()
    ensures rc == Success ==>
      var part := Procedure(h, hwp, Stray(fifo.slots, old(fifo.taken), hwp));
      fifo.sent == old(fifo.sent) + part && words == |part|
  {
    rc, words := Success, 0;
    if hwp.fapiRc != 0 {
      rc, words := SendHwpFailure(fifo, h, hwp);
    }
  }

  method SendInternal(fifo: DownFifo, package: FfdcPackage, h: RespHdr, f: Failure, blobs: seq<Blob>, wanted: bool)
      returns (rc: Rc, words: nat)
    requires fifo.Valid() && package.header.fapiRc == FAPI_RC_SEE_DATA
    requires forall i :: 0 <= i < |blobs| ==> Announceable(blobs[i])
    modifies fifo, package
    ensures fifo.Valid()
    ensures rc == Success ==>
      fifo.sent == old(fifo.sent) + Internal(h, f, blobs, wanted) && words == |Internal(h, f, blobs, wanted)|
  {
    rc, words := Success, 0;
    if h.primary != 0 || h.secondary != 0 {
      rc, words := package.SendOverFifo(fifo, f, blobs, 0xFFFF, wanted);
    }
  }

  lemma ClosesFrame(h: RespHdr, body: seq<u32>, distance: nat)
    requires distance == 3 + |body|
    ensures Frame(RespWords(h) + body + [distance % POW2_32], h)
  {
    HeaderReads(h);
    assert (RespWords(h) + body + [distance % POW2_32])[..2] == RespWords(h);
  }

  /** The two optional parts of a response. */
  method SendBody(fifo: DownFifo, package: FfdcPackage, h: RespHdr, hwp: HwpFailure,
                  f: Failure, blobs: seq<Blob>, wanted: bool) returns (rc: Rc, words: nat)
    requires fifo.Valid() && package.header.fapiRc == FAPI_RC_SEE_DATA && Sendable(hwp)
    requires forall i :: 0 <= i < |blobs| ==> Announceable(blobs[i])
    modifies fifo, package
    ensures fifo.Valid()
    ensures rc == Success ==>
      var body := Procedure(h, hwp, Stray(fifo.slots, old(fifo.taken), hwp)) + Internal(h, f, blobs, wanted);
      fifo.sent == old(fifo.sent) + body && words == |body|
  {
    ghost var had, part := fifo.sent, Procedure(h, hwp, Stray(fifo.slots, fifo.taken, hwp));
    rc, words := SendProcedure(fifo, h, hwp);
    if rc != Success {
      return;
    }
    var len;
    rc, len := SendInternal(fifo, package, h, f, blobs, wanted);
    words := words + len;
    Regroup(had, part, Internal(h, f, blobs, wanted));
  }

  /** Whether a stray word goes out in a response. */
  ghost predicate StrayAfterHeader(slots: seq<Slot>, from: nat, hwp: HwpFailure)
    requires from <= |slots|
  {
    Stray(slots, EnqueueFrom(slots, from, 0, 2).taken, hwp)
  }

  /** `sbeDsSendRespHdr`: whatever the FIFO's delays, and whichever parts are present, a
      successful response is a frame. */
  method SendResponse(fifo: DownFifo, package: FfdcPackage, h: RespHdr, hwp: HwpFailure,
                      f: Failure, blobs: seq<Blob>, wanted: bool) returns (rc: Rc, ghost frame: seq<u32>)
    requires fifo.Valid() && package.header.fapiRc == FAPI_RC_SEE_DATA && Sendable(hwp)
    requires forall i :: 0 <= i < |blobs| ==> Announceable(blobs[i])
    modifies fifo, package
    ensures fifo.Valid() && frame == WholeFrame(h, hwp, f, blobs, wanted, StrayAfterHeader(fifo.slots, old(fifo.taken), hwp))
    ensures Frame(frame, h) && (rc == Success ==> fifo.sent == old(fifo.sent) + frame)
  {
    ghost var had, stray := fifo.sent, StrayAfterHeader(fifo.slots, fifo.taken, hwp);
    ghost var body := Procedure(h, hwp, stray) + Internal(h, f, blobs, wanted);
    frame := WholeFrame(h, hwp, f, blobs, wanted, stray);
    ClosesFrame(h, body, 3 + |body|);
    var distance := 1;
    var len;
    rc, len := fifo.EnqMult(RespWords(h), 2);
    if rc != Success {
      return;
    }
    distance := distance + len;
    rc, len := SendBody(fifo, package, h, hwp, f, blobs, wanted);
    if rc != Success {
      return;
    }
    distance := distance + len;
    Regroup(had, RespWords(h), body);
    Regroup(had, RespWords(h) + body, [distance % POW2_32]);
    rc, len := fifo.EnqMult([distance % POW2_32], 1);
  }

  /** What is in a response: without failures just the header and the length; the failure data
      of a procedure that failed, after the header; the internal package, when it is wanted,
      for every status but success, before the last word. */
  lemma FrameTells(h: RespHdr, hwp: HwpFailure, f: Failure, blobs: seq<Blob>, wanted: bool, stray: bool)
    requires Sendable(hwp) && forall i :: 0 <= i < |blobs| ==> Announceable(blobs[i])
    ensures var w, p := WholeFrame(h, hwp, f, blobs, wanted, stray), Package(f, blobs, 0xFFFF);
      var failed, internal := hwp.fapiRc != 0, wanted && !(h.primary == 0 && h.secondary == 0);
      && |w| == 3 + (if failed then 3 + (if stray then 1 else hwp.length) else 0) + (if internal then |p| else 0)
      && (failed ==> ReadsAsFfdc(w[2..5], 3 + hwp.length, 0, h.cmdClass, h.command, hwp.fapiRc)
                     && (!stray ==> w[5..5 + hwp.length] == hwp.words[..hwp.length]))
      && (internal ==> w[|w| - 1 - |p|..|w| - 1] == p)
  {
    var a, b := Procedure(h, hwp, stray), Internal(h, f, blobs, wanted);
    FfdcReads(ProcedureHdr(h, hwp), 3 + hwp.length);
    FrameParts(RespWords(h), a, b, |a|, |b|);
    if hwp.fapiRc != 0 {
      ProcedureParts(RespWords(h), FfdcWords(ProcedureHdr(h, hwp)), WordsOf(hwp, stray), b);
    }
  }

  lemma FrameParts(h: seq<u32>, a: seq<u32>, b: seq<u32>, m: nat, n: nat)
    requires |h| == 2 && |a| == m && |b| == n
    ensures forall d :: var w := h + (a + b) + [d]; |w| == 3 + m + n && w[|w| - 1 - n..|w| - 1] == b
  {
  }

  lemma ProcedureParts(h: seq<u32>, x: seq<u32>, y: seq<u32>, b: seq<u32>)
    requires |h| == 2 && |x| == 3
    ensures forall d :: var w := h + ((x + y) + b) + [d]; w[2..5] == x && w[5..5 + |y|] == y
  {
  }

  /** The reader's side: the last word of the stream, when the frame is shorter than 2^32
      words, is the distance back to the first word of the header. */
  lemma LastWordFindsHeader(before: seq<u32>, frame: seq<u32>, h: RespHdr)
    requires Frame(frame, h) && |frame| < POW2_32
    ensures var stream := before + frame;
      var back := stream[|stream| - 1];
      back <= |stream| && ReadsAsHeader(stream[|stream| - back..][..2], h)
  {
    var stream := before + frame;
    assert stream[|stream| - |frame|..] == frame;
  }
}
