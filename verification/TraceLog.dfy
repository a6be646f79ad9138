/** What the embedded core writes into its circular trace buffer, and that the converter's
    walk finds it again. */
module TraceLog {
  import opened Bytes
  import opened TraceTime
  import opened TraceBuffer

  function Code(format: Format): nat {
    match format
    case Empty => 0
    case Tiny => 1
    case Big => 2
    case Binary => 3
  }

  function TimeWord(f: Footer): u32 { 4 * f.ticks + Code(f.format) }

  function FooterBytes(f: Footer): (s: seq<byte>)
    ensures |s| == FOOTER
  {
    BeBytes(f.stringId, 2) + [f.complete, f.count] + BeBytes(TimeWord(f), 4)
  }

  lemma FooterRoundTrip(f: Footer)
    ensures ParseFooter(FooterBytes(f)) == f
  {
    var b := FooterBytes(f);
    assert b[..2] == BeBytes(f.stringId, 2) && b[4..] == BeBytes(TimeWord(f), 4);
    assert Pow256(2) == 0x1_0000 && Pow256(4) == POW2_32;
    BeRoundTrip(f.stringId, 2);
    BeRoundTrip(TimeWord(f), 4);
    assert TimeWord(f) / 4 == f.ticks && TimeWord(f) % 4 == Code(f.format);
  }

  function LogBytes(e: Raw): seq<byte> { e.parms + FooterBytes(e.footer) }

  function AllBytes(es: seq<Raw>): (bs: seq<seq<byte>>)
    ensures |bs| == |es|
  {
    seq(|es|, i requires 0 <= i < |es| => LogBytes(es[i]))
  }

  /** All that was ever written, oldest first, after a buffer of `n` zeros. */
  function Log(n: nat, bs: seq<seq<byte>>): (s: seq<byte>)
    ensures |s| >= n
  {
    if bs == [] then seq(n, i => 0) else Log(n, bs[..|bs| - 1]) + bs[|bs| - 1]
  }

  /** An entry as it lies in the buffer. Its footer may announce more data than was stored. */
  predicate Storable(e: Raw) {
    e.footer.format != Empty && FOOTER + |e.parms| == e.size <= EntrySize(e.footer)
  }

  /** All the data that the footer announces was stored. */
  predicate Whole(e: Raw) { e.size == EntrySize(e.footer) }

  // ----- the writer

  /** A cyclic store of one entry. */
  function Put(cb: seq<byte>, offset: u32, b: seq<byte>): (r: seq<byte>)
    requires 0 < |cb|
    ensures |r| == |cb|
  {
    seq(|cb|, i requires 0 <= i < |cb| =>
      var k := (i - offset) % |cb|;
      if k < |b| then b[k] else cb[i])
  }

  datatype State = State(cb: seq<byte>, offset: u32)

  /** The buffer after entries of these bytes were traced, one after the other. */
  function Written(n: nat, bs: seq<seq<byte>>): (s: State)
    requires n > 0
    ensures |s.cb| == n
  {
    if bs == [] then State(seq(n, i => 0), 0)
    else
      var s, b := Written(n, bs[..|bs| - 1]), bs[|bs| - 1];
      State(Put(s.cb, s.offset, b), (s.offset + |b|) % POW2_32)
  }

  /** The byte `j` places before an offset. */
  function Back(ring: int -> byte, offset: int, j: int): byte { ring(offset - j) }

  /** The last `left` bytes of the log stand before the offset. */
  ghost predicate Holds(ring: int -> byte, offset: int, left: nat, log: seq<byte>) {
    left <= |log| && forall j :: 1 <= j <= left ==> Back(ring, offset, j) == log[|log| - j]
  }

  /** A 32-bit offset means the same place as an unbounded one. */
  lemma BackWraps(cb: seq<byte>, x: int, j: int)
    requires Usable(cb)
    ensures Back(Ring(cb), x % POW2_32, j) == Back(Ring(cb), x, j)
  {
    SizeDivides(|cb|);
    var m: nat :| |cb| * m == POW2_32;
    var q := x / POW2_32;
    assert x == POW2_32 * q + x % POW2_32;
    assert POW2_32 * q == |cb| * (m * q);
    ModPlus(x % POW2_32 - j, |cb|, m * q);
    assert x - j == |cb| * (m * q) + (x % POW2_32 - j);
  }

  lemma HoldsWraps(cb: seq<byte>, x: int, left: nat, log: seq<byte>)
    requires Usable(cb) && Holds(Ring(cb), x, left, log)
    ensures Holds(Ring(cb), x % POW2_32, left, log)
  {
    forall j | 1 <= j <= left
      ensures Back(Ring(cb), x % POW2_32, j) == log[|log| - j]
    {
      BackWraps(cb, x, j);
    }
  }

  lemma PutIndex(offset: int, n: nat, d: int)
    requires n > 0 && -(n as int) <= d < n
    ensures ((offset + d) % n - offset) % n == if d >= 0 then d else d + n
  {
    var x := offset + d;
    var r := if d >= 0 then d else d + n;
    var q := if d >= 0 then 0 - x / n else -1 - x / n;
    assert x % n == x - n * (x / n);
    assert n * q == (if d >= 0 then 0 else 0 - n) - n * (x / n);
    ModUnique(x % n - offset, n, q, r);
  }

  lemma PutAt(cb: seq<byte>, offset: u32, b: seq<byte>, j: nat)
    requires 0 < |cb| && |b| <= |cb| && 1 <= j <= |cb|
    ensures Back(Ring(Put(cb, offset, b)), offset + |b|, j)
      == if j <= |b| then b[|b| - j] else Back(Ring(cb), offset, j - |b|)
  {
    PutIndex(offset, |cb|, |b| - j);
    assert offset + |b| - j == offset + (|b| - j) == offset - (j - |b|);
  }

  lemma PutHolds(cb: seq<byte>, offset: u32, b: seq<byte>, log: seq<byte>)
    requires Usable(cb) && |b| <= |cb| && Holds(Ring(cb), offset, |cb|, log)
    ensures Holds(Ring(Put(cb, offset, b)), (offset + |b|) % POW2_32, |cb|, log + b)
  {
    var after, at := Put(cb, offset, b), offset + |b|;
    forall j | 1 <= j <= |cb|
      ensures Back(Ring(after), at, j) == if j <= |b| then b[|b| - j] else Back(Ring(cb), offset, j - |b|)
    {
      PutAt(cb, offset, b, j);
    }
    HoldsJoin(Ring(cb), offset, Ring(after), at, |cb|, log, b);
    HoldsWraps(after, at, |cb|, log + b);
  }

  lemma HoldsJoin(ring: int -> byte, offset: int, after: int -> byte, at: int, left: nat, log: seq<byte>, b: seq<byte>)
    requires |b| <= left && Holds(ring, offset, left, log)
    requires forall j :: 1 <= j <= left ==>
      Back(after, at, j) == if j <= |b| then b[|b| - j] else Back(ring, offset, j - |b|)
    ensures Holds(after, at, left, log + b)
  {
  }

  lemma ZerosHold(cb: seq<byte>, zeros: seq<byte>)
    requires |cb| == |zeros| > 0 && (forall i :: 0 <= i < |cb| ==> cb[i] == 0) && forall i :: 0 <= i < |cb| ==> zeros[i] == 0
    ensures Holds(Ring(cb), 0, |cb|, zeros)
  {
  }

  /** After any run of the writer the buffer holds the end of the log. */
  lemma {:induction false} WriterHolds(n: nat, bs: seq<seq<byte>>)
    requires PowerOfTwo(n) && FOOTER <= n <= 0x8000
    requires forall i :: 0 <= i < |bs| ==> |bs[i]| <= n
    ensures Holds(Ring(Written(n, bs).cb), Written(n, bs).offset, n, Log(n, bs))
  {
    if bs == [] {
      ZerosHold(Written(n, bs).cb, Log(n, bs));
    } else {
      var front, b := bs[..|bs| - 1], bs[|bs| - 1];
      WriterHolds(n, front);
      PutHolds(Written(n, front).cb, Written(n, front).offset, b, Log(n, front));
    }
  }

  // ----- the walk

  /** The walk found the log's newest entries, the last one perhaps cut. */
  ghost predicate Matches(walk: seq<Raw>, es: seq<Raw>, left: nat)
    decreases |es|
  {
    if left < FOOTER || es == [] then walk == []
    else
      var e := es[|es| - 1];
      if e.size > left then |walk| == 1 && walk[0].footer == e.footer.(complete := 0)
      else walk != [] && walk[0] == e && Matches(walk[1..], es[..|es| - 1], left - e.size)
  }

  lemma HoldsPart(ring: int -> byte, offset: int, left: nat, log: seq<byte>, back: nat, n: nat)
    requires Holds(ring, offset, left, log) && n <= back <= left
    ensures Cyclic(ring, offset - back, n) == log[|log| - back..|log| - back + n]
  {
    var part := Cyclic(ring, offset - back, n);
    forall i | 0 <= i < n
      ensures part[i] == log[|log| - back + i]
    {
      assert offset - back + i == offset - (back - i);
      assert part[i] == Back(ring, offset, back - i);
    }
  }

  lemma HoldsOlder(ring: int -> byte, offset: int, left: nat, older: seq<byte>, b: seq<byte>)
    requires Holds(ring, offset, left, older + b) && |b| <= left
    ensures Holds(ring, offset - |b|, left - |b|, older)
  {
    var at := offset - |b|;
    forall j | 1 <= j <= left - |b|
      ensures Back(ring, at, j) == older[|older| - j]
    {
      assert Back(ring, at, j) == Back(ring, offset, j + |b|);
    }
  }

  lemma ZeroFooter(b: seq<byte>)
    requires |b| == FOOTER && forall i :: 0 <= i < FOOTER ==> b[i] == 0
    ensures EntrySize(ParseFooter(b)) == 0
  {
    var w := b[4..];
    assert w == [0, 0, 0, 0];
    assert w[..3] == [0, 0, 0] && w[..3][..2] == [0, 0] && w[..3][..2][..1] == [0] && w[..3][..2][..1][..0] == [];
    assert BeVal([0 as byte]) == 0 && BeVal([0 as byte, 0]) == 0 && BeVal([0 as byte, 0, 0]) == 0;
  }

  lemma FooterFound(ring: int -> byte, offset: int, left: nat, older: seq<byte>, e: Raw)
    requires FOOTER <= left && Holds(ring, offset, left, older + LogBytes(e))
    ensures FooterAt(ring, offset) == e.footer
  {
    HoldsPart(ring, offset, left, older + LogBytes(e), FOOTER, FOOTER);
    LastOfLog(older, e.parms, FooterBytes(e.footer));
    FooterRoundTrip(e.footer);
  }

  lemma LastOfLog(older: seq<byte>, parms: seq<byte>, footer: seq<byte>)
    ensures var log := older + (parms + footer);
      log[|log| - |footer|..|log| - |footer| + |footer|] == footer
  {
  }

  lemma ParmsOfLog(older: seq<byte>, parms: seq<byte>, footer: seq<byte>)
    ensures var log, s := older + (parms + footer), |parms| + |footer|;
      log[|log| - s..|log| - s + |parms|] == parms
  {
  }

  lemma ParmsFound(ring: int -> byte, offset: int, left: nat, older: seq<byte>, e: Raw)
    requires e.size == |e.parms| + FOOTER <= left && Holds(ring, offset, left, older + LogBytes(e))
    ensures Cyclic(ring, offset - e.size, e.size - FOOTER) == e.parms
    ensures Holds(ring, offset - e.size, left - e.size, older)
  {
    HoldsPart(ring, offset, left, older + LogBytes(e), e.size, e.size - FOOTER);
    ParmsOfLog(older, e.parms, FooterBytes(e.footer));
    HoldsOlder(ring, offset, left, older, LogBytes(e));
  }

  lemma EntryIs(ring: int -> byte, offset: int, e: Raw)
    requires e.footer.format != Empty && FooterAt(ring, offset) == e.footer
    ensures var n := EntrySize(e.footer); EntryAt(ring, offset) == Raw(e.footer, Cyclic(ring, offset - n, n - FOOTER), n)
  {
  }

  /** What is looked up has the entry's footer, and is the entry if all of it is there. */
  predicate Finds(found: Raw, e: Raw, left: nat, whole: bool) {
    && found.footer == e.footer && found.size >= e.size > 0
    && (whole ==> found.size == e.size && (e.size <= left ==> found == e)) && (!whole ==> found.size != e.size)
  }

  /** The walk goes on to match as long as the entries that fit are whole. */
  ghost predicate Reach(es: seq<Raw>, left: nat, whole: Raw -> bool)
    decreases |es|
  {
    left >= FOOTER && es != [] ==>
      var e := es[|es| - 1];
      e.size <= left ==> whole(e) && Reach(es[..|es| - 1], left - e.size, whole)
  }

  lemma MatchStep(look: u32 -> Raw, offset: u32, left: nat, es: seq<Raw>, e: Raw, whole: bool)
    requires es != [] && left >= FOOTER && e == es[|es| - 1] && Finds(look(offset), e, left, whole)
    ensures Matches(Walk(look, offset, left), es, left)
      <==> (e.size <= left ==>
              whole && Matches(Walk(look, (offset - e.size) % POW2_32, left - e.size), es[..|es| - 1], left - e.size))
  {
  }

  lemma ReachStep(es: seq<Raw>, left: nat, whole: Raw -> bool, e: Raw)
    requires es != [] && left >= FOOTER && e == es[|es| - 1]
    ensures Reach(es, left, whole) <==> (e.size <= left ==> whole(e) && Reach(es[..|es| - 1], left - e.size, whole))
  {
  }

  /** A place in the buffer and the number of entries before it. */
  datatype Place = Place(offset: u32, left: nat, k: nat)

  function Before(p: Place, n: nat): Place
    requires p.k > 0 && n <= p.left
  {
    Place((p.offset - n) % POW2_32, p.left - n, p.k - 1)
  }

  ghost predicate Leads(look: u32 -> Raw, es: seq<Raw>, whole: Raw -> bool, good: Place -> bool, p: Place) {
    if p.k == 0 then look(p.offset).size == 0
    else
      && p.k <= |es| && Finds(look(p.offset), es[p.k - 1], p.left, whole(es[p.k - 1]))
      && (whole(es[p.k - 1]) && es[p.k - 1].size <= p.left ==> good(Before(p, es[p.k - 1].size)))
  }

  /** A walk that keeps finding the entry before matches the entries exactly as far as they
      are whole. */
  lemma {:induction false} WalkMatches(look: u32 -> Raw, es: seq<Raw>, whole: Raw -> bool, good: Place -> bool, p: Place)
    requires p.k <= |es| && good(p)
    requires forall p :: good(p) && FOOTER <= p.left ==> Leads(look, es, whole, good, p)
    ensures Matches(Walk(look, p.offset, p.left), es[..p.k], p.left) <==> Reach(es[..p.k], p.left, whole)
    decreases p.k
  {
    if p.left >= FOOTER && p.k > 0 {
      var e := es[p.k - 1];
      assert Leads(look, es, whole, good, p);
      assert es[..p.k][..p.k - 1] == es[..p.k - 1];
      if e.size <= p.left && whole(e) {
        WalkMatches(look, es, whole, good, Before(p, e.size));
      }
      MatchStep(look, p.offset, p.left, es[..p.k], e, whole(e));
      ReachStep(es[..p.k], p.left, whole, e);
    }
  }

  /** Before the first entry the walk stops at the zeros. */
  lemma StopsAtZeros(ring: int -> byte, offset: int, left: nat, n: nat)
    requires FOOTER <= left && Holds(ring, offset, left, Log(n, []))
    ensures EntryAt(ring, offset).size == 0
  {
    HoldsPart(ring, offset, left, Log(n, []), FOOTER, FOOTER);
    ZeroFooter(Cyclic(ring, offset - FOOTER, FOOTER));
  }

  lemma LogSplit(n: nat, es: seq<Raw>, k: nat)
    requires 0 < k <= |es|
    ensures Log(n, AllBytes(es)[..k]) == Log(n, AllBytes(es)[..k - 1]) + LogBytes(es[k - 1])
  {
    assert AllBytes(es)[..k][..k - 1] == AllBytes(es)[..k - 1];
  }

  /** The entry at the end of a log is looked up as it was written, if it is whole. */
  lemma LookFinds(ring: int -> byte, offset: int, left: nat, older: seq<byte>, e: Raw, found: Raw)
    requires Storable(e) && FOOTER <= left && Holds(ring, offset, left, older + LogBytes(e))
    requires found == EntryAt(ring, offset)
    ensures Finds(found, e, left, Whole(e))
    ensures Whole(e) && e.size <= left ==> Holds(ring, offset - e.size, left - e.size, older)
  {
    FooterFound(ring, offset, left, older, e);
    EntryIs(ring, offset, e);
    if Whole(e) && e.size <= left {
      ParmsFound(ring, offset, left, older, e);
    }
  }

  lemma RecoverStep(cb: seq<byte>, offset: u32, left: nat, older: seq<byte>, e: Raw, found: Raw)
    requires Usable(cb) && Storable(e) && FOOTER <= left && Holds(Ring(cb), offset, left, older + LogBytes(e))
    requires found == EntryAt(Ring(cb), offset)
    ensures Finds(found, e, left, Whole(e))
    ensures Whole(e) && e.size <= left ==> Holds(Ring(cb), (offset - e.size) % POW2_32, left - e.size, older)
  {
    LookFinds(Ring(cb), offset, left, older, e, found);
    if Whole(e) && e.size <= left {
      HoldsWraps(cb, offset - e.size, left - e.size, older);
    }
  }

  lemma LeadsBack(ring: int -> byte, look: u32 -> Raw, es: seq<Raw>, whole: Raw -> bool, older: seq<byte>, good: Place -> bool, p: Place)
    requires 0 < p.k <= |es| && Finds(look(p.offset), es[p.k - 1], p.left, whole(es[p.k - 1]))
    requires var e := es[p.k - 1];
      whole(e) && e.size <= p.left ==> Holds(ring, (p.offset - e.size) % POW2_32, p.left - e.size, older)
    requires forall q: Place :: q.k == p.k - 1 && Holds(ring, q.offset, q.left, older) ==> good(q)
    ensures Leads(look, es, whole, good, p)
  {
  }

  lemma EntryLeads(cb: seq<byte>, look: u32 -> Raw, es: seq<Raw>, whole: Raw -> bool, older: seq<byte>, good: Place -> bool,
                   p: Place, e: Raw)
    requires Usable(cb) && 0 < p.k <= |es| && FOOTER <= p.left && e == es[p.k - 1] && Storable(e) && whole(e) == Whole(e)
    requires Holds(Ring(cb), p.offset, p.left, older + LogBytes(e)) && look(p.offset) == EntryAt(Ring(cb), p.offset)
    requires forall q: Place :: q.k == p.k - 1 && Holds(Ring(cb), q.offset, q.left, older) ==> good(q)
    ensures Leads(look, es, whole, good, p)
  {
    RecoverStep(cb, p.offset, p.left, older, e, look(p.offset));
    LeadsBack(Ring(cb), look, es, whole, older, good, p);
  }

  lemma PlaceLeads(cb: seq<byte>, n: nat, es: seq<Raw>, whole: Raw -> bool, older: seq<byte>, good: Place -> bool, p: Place)
    requires Usable(cb) && p.k <= |es| && FOOTER <= p.left && Holds(Ring(cb), p.offset, p.left, Log(n, AllBytes(es)[..p.k]))
    requires p.k > 0 ==>
      Storable(es[p.k - 1]) && whole(es[p.k - 1]) == Whole(es[p.k - 1]) && older == Log(n, AllBytes(es)[..p.k - 1])
    requires forall q: Place :: q.k == p.k - 1 && Holds(Ring(cb), q.offset, q.left, older) ==> good(q)
    ensures Leads(Look(cb), es, whole, good, p)
  {
    if p.k == 0 {
      assert AllBytes(es)[..0] == [];
      StopsAtZeros(Ring(cb), p.offset, p.left, n);
    } else {
      LogSplit(n, es, p.k);
      EntryLeads(cb, Look(cb), es, whole, older, good, p, es[p.k - 1]);
    }
  }

  function AllWhole(): Raw -> bool { (e: Raw) => Whole(e) }

  /** From a buffer that holds the end of a log the walk recovers its entries, newest first,
      exactly as far as they are whole. */
  lemma WalkRecovers(cb: seq<byte>, offset: u32, left: nat, n: nat, es: seq<Raw>)
    requires Usable(cb) && Holds(Ring(cb), offset, left, Log(n, AllBytes(es)))
    requires forall i :: 0 <= i < |es| ==> Storable(es[i])
    ensures Matches(Walk(Look(cb), offset, left), es, left) <==> Reach(es, left, AllWhole())
  {
    var good := (p: Place) => p.k <= |es| && Holds(Ring(cb), p.offset, p.left, Log(n, AllBytes(es)[..p.k]));
    forall p | good(p) && FOOTER <= p.left
      ensures Leads(Look(cb), es, AllWhole(), good, p)
    {
      PlaceLeads(cb, n, es, AllWhole(), if p.k == 0 then [] else Log(n, AllBytes(es)[..p.k - 1]), good, p);
    }
    assert AllBytes(es)[..|es|] == AllBytes(es) && es[..|es|] == es;
    WalkMatches(Look(cb), es, AllWhole(), good, Place(offset, left, |es|));
  }
}
