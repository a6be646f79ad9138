/** Handing the security lists to the host: a packed big-endian dump through the granule
    interface, and the loader that rebuilds the lists from it. */
module SecurityDump {
  import opened Bytes
  import MemAccess
  import opened SecurityTables

  // ----- records of a fixed width

  /** The records' bytes in order. */
  function Encode<T(!new)>(enc: T -> seq<byte>, ts: seq<T>): seq<byte> {
    if ts == [] then [] else enc(ts[0]) + Encode(enc, ts[1..])
  }

  /** The first `n` records of width `w` in the buffer. */
  function Decode<T(!new)>(dec: seq<byte> -> T, w: nat, buf: seq<byte>, n: nat): seq<T>
    decreases n
  {
    if n == 0 || |buf| < w then [] else [dec(buf[..w])] + Decode(dec, w, buf[w..], n - 1)
  }

  /** Records of width `w` that decoding gives back. */
  ghost predicate Codec<T(!new)>(enc: T -> seq<byte>, dec: seq<byte> -> T, w: nat, ts: seq<T>) {
    forall i :: 0 <= i < |ts| ==> |enc(ts[i])| == w && dec(enc(ts[i])) == ts[i]
  }

  lemma {:induction false} DecodeEncoded<T(!new)>(enc: T -> seq<byte>, dec: seq<byte> -> T, w: nat, ts: seq<T>, rest: seq<byte>)
    requires Codec(enc, dec, w, ts)
    ensures Decode(dec, w, Encode(enc, ts) + rest, |ts|) == ts
  {
    if ts != [] {
      var first, others := enc(ts[0]), Encode(enc, ts[1..]);
      assert Encode(enc, ts) + rest == first + (others + rest);
      assert (first + (others + rest))[..w] == first && (first + (others + rest))[w..] == others + rest;
      assert forall i :: 0 <= i < |ts[1..]| ==> ts[1..][i] == ts[i + 1];
      DecodeEncoded(enc, dec, w, ts[1..], rest);
    }
  }

  lemma {:induction false} EncodeLength<T(!new)>(enc: T -> seq<byte>, dec: seq<byte> -> T, w: nat, ts: seq<T>)
    requires Codec(enc, dec, w, ts)
    ensures |Encode(enc, ts)| == w * |ts|
  {
    if ts != [] {
      assert forall i :: 0 <= i < |ts[1..]| ==> ts[1..][i] == ts[i + 1];
      EncodeLength(enc, dec, w, ts[1..]);
      MemAccess.OneMore(w, |ts| - 1);
    }
  }

  lemma {:induction false} EncodeStep<T(!new)>(enc: T -> seq<byte>, ts: seq<T>, i: nat)
    requires i < |ts|
    ensures Encode(enc, ts[..i + 1]) == Encode(enc, ts[..i]) + enc(ts[i])
    decreases i
  {
    if i > 0 {
      EncodeStep(enc, ts[1..], i - 1);
      assert ts[..i + 1][1..] == ts[1..][..i] && ts[..i][1..] == ts[1..][..i - 1];
    } else {
      assert ts[..1][1..] == [] && ts[..0] == [];
    }
  }

  // ----- the four kinds of record

  function T1Bytes(e: T1): seq<byte> { BeBytes(e.lo, 1) + BeBytes(e.hi, 1) + BeBytes(e.count, 1) }
  function T2Bytes(e: T2): seq<byte> { BeBytes(e.key, 1) + BeBytes(e.count, 2) }
  function T3Bytes(v: u16): seq<byte> { BeBytes(v, 2) }
  function GreyBytes(e: Grey): seq<byte> { BeBytes(e.key, 4) + BeBytes(e.bits, 8) }

  function Byte(s: seq<byte>, i: nat): u8 { if i < |s| then s[i] as int else 0 }

  function T1Of(s: seq<byte>): T1 { T1(Byte(s, 0), Byte(s, 1), Byte(s, 2)) }
  function T2Of(s: seq<byte>): T2 { T2(Byte(s, 0), Byte(s, 1) * 0x100 + Byte(s, 2)) }
  function T3Of(s: seq<byte>): u16 { Byte(s, 0) * 0x100 + Byte(s, 1) }

  function GreyOf(s: seq<byte>): Grey {
    if |s| != 12 then Grey(0, 0)
    else
      assert Pow256(4) == 0x1_0000_0000 && Pow256(8) == Pow256(4) * Pow256(4);
      Grey(BeVal(s[..4]), BeVal(s[4..]))
  }

  lemma T1Codec(ts: seq<T1>)
    ensures Codec(T1Bytes, T1Of, 3, ts)
  {
  }

  lemma T2Codec(ts: seq<T2>)
    ensures Codec(T2Bytes, T2Of, 3, ts)
  {
    forall i | 0 <= i < |ts|
      ensures |T2Bytes(ts[i])| == 3 && T2Of(T2Bytes(ts[i])) == ts[i]
    {
      TwoBytes(ts[i].count);
    }
  }

  lemma T3Codec(ts: seq<u16>)
    ensures Codec(T3Bytes, T3Of, 2, ts)
  {
    forall i | 0 <= i < |ts|
      ensures |T3Bytes(ts[i])| == 2 && T3Of(T3Bytes(ts[i])) == ts[i]
    {
      TwoBytes(ts[i]);
    }
  }

  lemma TwoBytes(v: u16)
    ensures BeBytes(v, 2) == [(v / 0x100) as byte, (v % 0x100) as byte]
  {
    assert BeBytes(v / 0x100, 1) == [(v / 0x100) as byte];
  }

  lemma GreyCodec(ts: seq<Grey>)
    ensures Codec(GreyBytes, GreyOf, 12, ts)
  {
    forall i | 0 <= i < |ts|
      ensures |GreyBytes(ts[i])| == 12 && GreyOf(GreyBytes(ts[i])) == ts[i]
    {
      GreyBack(ts[i]);
    }
  }

  lemma GreyBack(e: Grey)
    ensures |GreyBytes(e)| == 12 && GreyOf(GreyBytes(e)) == e
  {
    var a, b := BeBytes(e.key, 4), BeBytes(e.bits, 8);
    assert Pow256(4) == 0x1_0000_0000 && Pow256(8) == Pow256(4) * Pow256(4);
    BeRoundTrip(e.key, 4);
    BeRoundTrip(e.bits, 8);
    assert (a + b)[..4] == a && (a + b)[4..] == b;
  }

  // ----- the dump

  function TableBytes(t: Tables): seq<byte> {
    Encode(T1Bytes, t.t1) + Encode(T2Bytes, t.t2) + Encode(T3Bytes, t.t3)
  }

  /** `sec_header_dump_t`: the number of records in each table, 16 bits each. */
  datatype SecHeader = SecHeader(w1: nat, w2: nat, w3: nat, b1: nat, b2: nat, b3: nat, g: nat)

  function HeaderOf(l: Lists): SecHeader {
    SecHeader(|l.white.t1|, |l.white.t2|, |l.white.t3|, |l.black.t1|, |l.black.t2|, |l.black.t3|, |l.grey|)
  }

  function Fields(h: SecHeader): seq<nat> { [h.w1, h.w2, h.w3, h.b1, h.b2, h.b3, h.g] }

  function CountBytes(n: nat): seq<byte> { BeBytes(n, 2) }

  function Header(l: Lists): seq<byte> { Encode(CountBytes, Fields(HeaderOf(l))) }

  function Dump(l: Lists): seq<byte> {
    Header(l) + TableBytes(l.white) + TableBytes(l.black) + Encode(GreyBytes, l.grey) + [0]
  }

  // ----- loading

  function LoadTables(buf: seq<byte>, off: nat, n1: nat, n2: nat, n3: nat): Tables
    requires off + 3 * n1 + 3 * n2 <= |buf|
  {
    Tables(Decode(T1Of, 3, buf[off..], n1),
           Decode(T2Of, 3, buf[off + 3 * n1..], n2),
           Decode(T3Of, 2, buf[off + 3 * n1 + 3 * n2..], n3))
  }

  lemma RecordsBack<T(!new)>(enc: T -> seq<byte>, dec: seq<byte> -> T, w: nat, ts: seq<T>, buf: seq<byte>, pre: seq<byte>, rest: seq<byte>)
    requires Codec(enc, dec, w, ts) && buf == pre + Encode(enc, ts) + rest
    ensures |buf| >= |pre| && Decode(dec, w, buf[|pre|..], |ts|) == ts
    ensures |Encode(enc, ts)| == w * |ts|
  {
    EncodeLength(enc, dec, w, ts);
    DecodeEncoded(enc, dec, w, ts, rest);
    assert buf[|pre|..] == Encode(enc, ts) + rest;
  }

  lemma Regroup(pre: seq<byte>, a: seq<byte>, b: seq<byte>, c: seq<byte>, rest: seq<byte>)
    ensures pre + (a + b + c) + rest == pre + a + (b + c + rest)
    ensures pre + (a + b + c) + rest == (pre + a) + b + (c + rest)
    ensures pre + (a + b + c) + rest == (pre + a + b) + c + rest
  {
  }

  /** The tables come back from where they were put. */
  lemma TablesBack(pre: seq<byte>, t: Tables, rest: seq<byte>)
    ensures |TableBytes(t)| == 3 * |t.t1| + 3 * |t.t2| + 2 * |t.t3|
    ensures LoadTables(pre + TableBytes(t) + rest, |pre|, |t.t1|, |t.t2|, |t.t3|) == t
  {
    var a, b, c := Encode(T1Bytes, t.t1), Encode(T2Bytes, t.t2), Encode(T3Bytes, t.t3);
    var buf := pre + TableBytes(t) + rest;
    Regroup(pre, a, b, c, rest);
    T1Codec(t.t1);
    T2Codec(t.t2);
    T3Codec(t.t3);
    RecordsBack(T1Bytes, T1Of, 3, t.t1, buf, pre, b + c + rest);
    RecordsBack(T2Bytes, T2Of, 3, t.t2, buf, pre + a, c + rest);
    RecordsBack(T3Bytes, T3Of, 2, t.t3, buf, pre + a + b, rest);
  }

  function ReadHeader(buf: seq<byte>): SecHeader {
    var n := Decode(BeVal, 2, buf, 7);
    if |n| == 7 then SecHeader(n[0], n[1], n[2], n[3], n[4], n[5], n[6]) else SecHeader(0, 0, 0, 0, 0, 0, 0)
  }

  function BlackAt(h: SecHeader): nat { 14 + 3 * h.w1 + 3 * h.w2 + 2 * h.w3 }

  function GreyAt(h: SecHeader): nat { BlackAt(h) + 3 * h.b1 + 3 * h.b2 + 2 * h.b3 }

  /** The buffer is as long as its header says. */
  predicate Complete(buf: seq<byte>) { GreyAt(ReadHeader(buf)) + 12 * ReadHeader(buf).g <= |buf| }

  function LoadAs(buf: seq<byte>, h: SecHeader): Lists
    requires GreyAt(h) <= |buf|
  {
    Lists(LoadTables(buf, 14, h.w1, h.w2, h.w3),
          LoadTables(buf, BlackAt(h), h.b1, h.b2, h.b3),
          Decode(GreyOf, 12, buf[GreyAt(h)..], h.g))
  }

  /** What `securityAccessTablesInit` makes of a buffer. */
  function Load(buf: seq<byte>): Lists
    requires Complete(buf)
  {
    LoadAs(buf, ReadHeader(buf))
  }

  /** Every table's size fits the 16 bits its count is sent in. */
  predicate SizesFit(l: Lists) {
    var h := HeaderOf(l);
    h.w1 < 0x1_0000 && h.w2 < 0x1_0000 && h.w3 < 0x1_0000 && h.b1 < 0x1_0000 && h.b2 < 0x1_0000 && h.b3 < 0x1_0000
      && h.g < 0x1_0000
  }

  lemma CountBack(n: nat)
    requires n < 0x1_0000
    ensures |CountBytes(n)| == 2 && BeVal(CountBytes(n)) == n
  {
    assert Pow256(2) == 0x1_0000;
    BeRoundTrip(n, 2);
  }

  lemma HeaderBack(l: Lists, rest: seq<byte>)
    requires SizesFit(l)
    ensures |Header(l)| == 14 && ReadHeader(Header(l) + rest) == HeaderOf(l)
  {
    var n := Fields(HeaderOf(l));
    forall k | 0 <= k < 7
      ensures |CountBytes(n[k])| == 2 && BeVal(CountBytes(n[k])) == n[k]
    {
      CountBack(n[k]);
    }
    DecodeEncoded(CountBytes, BeVal, 2, n, rest);
    EncodeLength(CountBytes, BeVal, 2, n);
  }

  lemma Regroup4(h: seq<byte>, a: seq<byte>, b: seq<byte>, c: seq<byte>, rest: seq<byte>)
    ensures h + a + b + c + rest == h + (a + b + c + rest)
    ensures h + a + b + c + rest == h + a + (b + c + rest)
    ensures h + a + b + c + rest == (h + a) + b + (c + rest)
    ensures h + a + b + c + rest == (h + a + b) + c + rest
  {
  }

  /** The pieces of a dump, with whatever follows it. */
  lemma DumpIs(l: Lists, more: seq<byte>)
    ensures var h, w, b, g, rest := Header(l), TableBytes(l.white), TableBytes(l.black), Encode(GreyBytes, l.grey), [0] + more;
      && Dump(l) + more == h + (w + b + g + rest) && Dump(l) + more == h + w + (b + g + rest)
      && Dump(l) + more == (h + w) + b + (g + rest) && Dump(l) + more == (h + w + b) + g + rest
  {
    var h, w, b, g, rest := Header(l), TableBytes(l.white), TableBytes(l.black), Encode(GreyBytes, l.grey), [0] + more;
    LastByte(h + w + b + g, more);
    Regroup4(h, w, b, g, rest);
  }

  lemma LastByte(front: seq<byte>, more: seq<byte>)
    ensures front + [0] + more == front + ([0] + more)
  {
  }

  lemma WhiteBack(l: Lists, more: seq<byte>)
    requires SizesFit(l)
    ensures ReadHeader(Dump(l) + more) == HeaderOf(l) && BlackAt(HeaderOf(l)) <= |Dump(l)|
    ensures LoadTables(Dump(l) + more, 14, |l.white.t1|, |l.white.t2|, |l.white.t3|) == l.white
  {
    DumpIs(l, more);
    var b, g, rest := TableBytes(l.black), Encode(GreyBytes, l.grey), [0] + more;
    HeaderBack(l, TableBytes(l.white) + b + g + rest);
    TablesBack(Header(l), l.white, b + g + rest);
  }

  lemma BlackBack(l: Lists, more: seq<byte>)
    requires SizesFit(l)
    ensures GreyAt(HeaderOf(l)) <= |Dump(l)|
    ensures LoadTables(Dump(l) + more, BlackAt(HeaderOf(l)), |l.black.t1|, |l.black.t2|, |l.black.t3|) == l.black
  {
    DumpIs(l, more);
    var h, w, rest := Header(l), TableBytes(l.white), [0] + more;
    HeaderBack(l, []);
    TablesBack(h, l.white, []);
    TablesBack(h + w, l.black, Encode(GreyBytes, l.grey) + rest);
  }

  lemma GreyListBack(l: Lists, more: seq<byte>)
    requires SizesFit(l)
    ensures GreyAt(HeaderOf(l)) + 12 * |l.grey| <= |Dump(l) + more|
    ensures Decode(GreyOf, 12, (Dump(l) + more)[GreyAt(HeaderOf(l))..], |l.grey|) == l.grey
  {
    DumpIs(l, more);
    var h, w, b, rest := Header(l), TableBytes(l.white), TableBytes(l.black), [0] + more;
    HeaderBack(l, []);
    TablesBack(h, l.white, []);
    TablesBack(h, l.black, []);
    GreyCodec(l.grey);
    RecordsBack(GreyBytes, GreyOf, 12, l.grey, Dump(l) + more, h + w + b, rest);
  }

  /** Loading a dump, whatever follows it, gives back the lists. */
  lemma LoadDump(l: Lists, more: seq<byte>)
    requires SizesFit(l)
    ensures Complete(Dump(l) + more) && Load(Dump(l) + more) == l
  {
    WhiteBack(l, more);
    BlackBack(l, more);
    GreyListBack(l, more);
  }

  // ----- the firmware's side: the dump goes out field by field

  /** Everything handed to the interface so far. */
  ghost predicate Sent(m: MemAccess.Interface, had: seq<byte>, bytes: seq<byte>)
    reads m, m.buffer
  {
    m.Valid() && !m.reading && m.depth < m.granule && m.Accepted() == had + bytes
  }

  method SendBytes(m: MemAccess.Interface, piece: seq<byte>, ghost had: seq<byte>, ghost bytes: seq<byte>)
    requires Sent(m, had, bytes) && !m.Failing()
    modifies m, m.buffer
    ensures Sent(m, had, bytes + piece) && !m.Failing()
  {
    var rc;
    ghost var pad;
    rc, pad := m.Write(piece, false);
    assert had + bytes + piece + MemAccess.Zeros(0) == had + (bytes + piece);
  }

  lemma Gather(x: seq<byte>, a: seq<byte>, b: seq<byte>, c: seq<byte>)
    ensures x + a + b == x + (a + b) && x + a + b + c == x + (a + b + c)
  {
  }

  lemma Grow<T(!new)>(bytes: seq<byte>, enc: T -> seq<byte>, ts: seq<T>, i: nat)
    requires i < |ts|
    ensures bytes + Encode(enc, ts[..i + 1]) == bytes + Encode(enc, ts[..i]) + enc(ts[i])
  {
    EncodeStep(enc, ts, i);
  }

  method SendT1(m: MemAccess.Interface, ts: seq<T1>, ghost had: seq<byte>, ghost bytes: seq<byte>)
    requires Sent(m, had, bytes) && !m.Failing()
    modifies m, m.buffer
    ensures Sent(m, had, bytes + Encode(T1Bytes, ts)) && !m.Failing()
  {
    ghost var now := bytes;
    for i := 0 to |ts|
      invariant now == bytes + Encode(T1Bytes, ts[..i]) && Sent(m, had, now) && !m.Failing()
    {
      Grow(bytes, T1Bytes, ts, i);
      ghost var a, b, c := BeBytes(ts[i].lo, 1), BeBytes(ts[i].hi, 1), BeBytes(ts[i].count, 1);
      SendBytes(m, BeBytes(ts[i].lo, 1), had, now);
      SendBytes(m, BeBytes(ts[i].hi, 1), had, now + a);
      SendBytes(m, BeBytes(ts[i].count, 1), had, now + a + b);
      Gather(now, a, b, c);
      now := now + T1Bytes(ts[i]);
    }
    assert ts[..|ts|] == ts;
  }

  method SendT2(m: MemAccess.Interface, ts: seq<T2>, ghost had: seq<byte>, ghost bytes: seq<byte>)
    requires Sent(m, had, bytes) && !m.Failing()
    modifies m, m.buffer
    ensures Sent(m, had, bytes + Encode(T2Bytes, ts)) && !m.Failing()
  {
    ghost var now := bytes;
    for i := 0 to |ts|
      invariant now == bytes + Encode(T2Bytes, ts[..i]) && Sent(m, had, now) && !m.Failing()
    {
      Grow(bytes, T2Bytes, ts, i);
      SendBytes(m, BeBytes(ts[i].key, 1), had, now);
      SendBytes(m, BeBytes(ts[i].count, 2), had, now + BeBytes(ts[i].key, 1));
      Gather(now, BeBytes(ts[i].key, 1), BeBytes(ts[i].count, 2), []);
      now := now + T2Bytes(ts[i]);
    }
    assert ts[..|ts|] == ts;
  }

  method SendT3(m: MemAccess.Interface, ts: seq<u16>, ghost had: seq<byte>, ghost bytes: seq<byte>)
    requires Sent(m, had, bytes) && !m.Failing()
    modifies m, m.buffer
    ensures Sent(m, had, bytes + Encode(T3Bytes, ts)) && !m.Failing()
  {
    ghost var now := bytes;
    for i := 0 to |ts|
      invariant now == bytes + Encode(T3Bytes, ts[..i]) && Sent(m, had, now) && !m.Failing()
    {
      Grow(bytes, T3Bytes, ts, i);
      SendBytes(m, BeBytes(ts[i], 2), had, now);
      now := now + T3Bytes(ts[i]);
    }
    assert ts[..|ts|] == ts;
  }

  /** `sbeSecurityWhiteBlackListDump`. */
  method SendTables(m: MemAccess.Interface, t: Tables, ghost had: seq<byte>, ghost bytes: seq<byte>)
    requires Sent(m, had, bytes) && !m.Failing()
    modifies m, m.buffer
    ensures Sent(m, had, bytes + TableBytes(t)) && !m.Failing()
  {
    ghost var a, b, c := Encode(T1Bytes, t.t1), Encode(T2Bytes, t.t2), Encode(T3Bytes, t.t3);
    SendT1(m, t.t1, had, bytes);
    SendT2(m, t.t2, had, bytes + a);
    SendT3(m, t.t3, had, bytes + a + b);
    Gather(bytes, a, b, c);
  }

  /** `sbeSecurityGreyListDump`. */
  method SendGrey(m: MemAccess.Interface, ts: seq<Grey>, ghost had: seq<byte>, ghost bytes: seq<byte>)
    requires Sent(m, had, bytes) && !m.Failing()
    modifies m, m.buffer
    ensures Sent(m, had, bytes + Encode(GreyBytes, ts)) && !m.Failing()
  {
    ghost var now := bytes;
    for i := 0 to |ts|
      invariant now == bytes + Encode(GreyBytes, ts[..i]) && Sent(m, had, now) && !m.Failing()
    {
      Grow(bytes, GreyBytes, ts, i);
      SendBytes(m, BeBytes(ts[i].key, 4), had, now);
      SendBytes(m, BeBytes(ts[i].bits, 8), had, now + BeBytes(ts[i].key, 4));
      Gather(now, BeBytes(ts[i].key, 4), BeBytes(ts[i].bits, 8), []);
      now := now + GreyBytes(ts[i]);
    }
    assert ts[..|ts|] == ts;
  }

  /** `sendSecurityListDumpToHB`: header, white, black and grey lists, then a zero byte
      that closes the transfer. */
  method SendLists(m: MemAccess.Interface, l: Lists) returns (ghost pad: nat)
    requires m.Valid() && !m.reading && m.depth < m.granule && !m.Failing()
    modifies m, m.buffer
    ensures m.Valid() && m.cleanedUp && m.depth == 0 && pad < m.granule
    ensures m.Accepted() == old(m.Accepted()) + Dump(l) + MemAccess.Zeros(pad)
  {
    ghost var had := m.Accepted();
    SendBody(m, l, had);
    ghost var body := Header(l) + TableBytes(l.white) + TableBytes(l.black) + Encode(GreyBytes, l.grey);
    var rc;
    rc, pad := m.Write([0], true);
    Gather(had, body, [0], []);
  }

  method SendBody(m: MemAccess.Interface, l: Lists, ghost had: seq<byte>)
    requires Sent(m, had, []) && !m.Failing()
    modifies m, m.buffer
    ensures Sent(m, had, Header(l) + TableBytes(l.white) + TableBytes(l.black) + Encode(GreyBytes, l.grey)) && !m.Failing()
  {
    ghost var h, w, b := Header(l), TableBytes(l.white), TableBytes(l.black);
    SendBytes(m, Header(l), had, []);
    assert [] + h == h;
    SendTables(m, l.white, had, h);
    SendTables(m, l.black, had, h + w);
    SendGrey(m, l.grey, had, h + w + b);
  }

  // ----- the host's side

  /** Copies three tables out of the buffer, one after the other. */
  method ReadTables(buf: seq<byte>, start: nat, n1: nat, n2: nat, n3: nat) returns (t: Tables, size: nat)
    requires start + 3 * n1 + 3 * n2 <= |buf|
    ensures t == LoadTables(buf, start, n1, n2, n3) && size == start + 3 * n1 + 3 * n2 + 2 * n3
  {
    size := start;
    var t1 := Decode(T1Of, 3, buf[size..], n1);
    size := size + 3 * n1;
    var t2 := Decode(T2Of, 3, buf[size..], n2);
    size := size + 3 * n2;
    var t3 := Decode(T3Of, 2, buf[size..], n3);
    size := size + 2 * n3;
    t := Tables(t1, t2, t3);
  }

  method ReadGrey(buf: seq<byte>, size: nat, h: SecHeader) returns (g: seq<Grey>)
    requires size == GreyAt(h) <= |buf|
    ensures g == Decode(GreyOf, 12, buf[GreyAt(h)..], h.g)
  {
    g := Decode(GreyOf, 12, buf[size..], h.g);
  }

  method ReadLists(buf: seq<byte>, h: SecHeader) returns (l: Lists)
    requires GreyAt(h) <= |buf|
    ensures l == LoadAs(buf, h)
  {
    var white, size := ReadTables(buf, 14, h.w1, h.w2, h.w3);
    assert size == BlackAt(h);
    var black;
    black, size := ReadTables(buf, size, h.b1, h.b2, h.b3);
    var grey := ReadGrey(buf, size, h);
    l := Lists(white, black, grey);
  }

  class Loader {
    var initDone: bool
    var lists: Lists

    constructor ()
      ensures !initDone
    {
      initDone, lists := false, Lists(Tables([], [], []), Tables([], [], []), []);
    }

    /** `securityAccessTablesInit`: loads once. */
    method Init(buf: seq<byte>) returns (ok: bool)
      requires Complete(buf)
      modifies this
      ensures ok == !old(initDone) && initDone
      ensures lists == if ok then Load(buf) else old(lists)
    {
      ok := false;
      if !initDone {
        var h := ReadHeader(buf);
        lists := ReadLists(buf, h);
        initDone, ok := true, true;
      }
    }

    /** `isAccessAllowed`. */
    method IsAccessAllowed(a: u32, mask: u64, access: AccessType) returns (r: bool)
      requires initDone ==> WellFormedLists(lists)
      ensures r <==> initDone && Permitted(lists, a, mask, access)
    {
      if !initDone {
        r := false;
      } else if access == Write {
        r := IsPresent(lists.white, a);
        if !r && mask != ALL_BITS {
          r := GreyIsPresent(lists.grey, a, mask);
        }
      } else {
        r := IsPresent(lists.black, a);
        r := !r;
      }
    }
  }

  /** The dump in host memory, after a whole message to a fresh interface. */
  method DumpToMemory(m: MemAccess.Interface, l: Lists) returns (ghost pad: nat)
    requires m.Valid() && !m.reading && m.log == [] && m.depth == 0 && !m.Failing()
    modifies m, m.buffer
    ensures m.Valid() && MemAccess.Data(m.log) == Dump(l) + MemAccess.Zeros(pad)
  {
    ghost var had := m.Accepted();
    assert had == [];
    pad := SendLists(m, l);
    assert m.Accepted() == MemAccess.Data(m.log);
    assert [] + Dump(l) == Dump(l);
  }

  /** The bytes memory holds from the interface's start address on. */
  function InMemory(m: MemAccess.Interface, n: nat): (s: seq<byte>)
    reads m
    ensures |s| == n
  {
    seq(n, i requires 0 <= i < n reads m => MemAccess.Stored(m.log, m.memory)(m.start + i))
  }

  lemma DumpInMemory(m: MemAccess.Interface, dump: seq<byte>, pad: seq<byte>, n: nat)
    requires m.Valid() && MemAccess.Data(m.log) == dump + pad && n >= |dump|
    ensures InMemory(m, n) == dump + InMemory(m, n)[|dump|..]
  {
    forall i | 0 <= i < |dump|
      ensures InMemory(m, n)[i] == dump[i]
    {
      MemAccess.StoredIsData(m.log, m.start, m.granule, m.memory, m.start + i);
    }
  }

  /** The whole way: the firmware dumps its lists into host memory, the host loads `n` bytes
      of what memory then holds, and has the same lists. */
  method HandOver(m: MemAccess.Interface, l: Lists, loader: Loader, n: nat)
    requires m.Valid() && !m.reading && m.log == [] && m.depth == 0 && !m.Failing()
    requires SizesFit(l) && !loader.initDone && n >= |Dump(l)|
    modifies m, m.buffer, loader
    ensures loader.initDone && loader.lists == l
    ensures InMemory(m, n)[..|Dump(l)|] == Dump(l)
  {
    ghost var pad := DumpToMemory(m, l);
    DumpInMemory(m, Dump(l), MemAccess.Zeros(pad), n);
    LoadDump(l, InMemory(m, n)[|Dump(l)|..]);
    var ok := loader.Init(InMemory(m, n));
  }
}
