/** The trace calls of the embedded core: what each stores, and what a reader finds of it. */
module TraceWriter {
  import opened Bytes
  import opened TraceTime
  import opened TraceBuffer
  import opened TraceEntry
  import opened TraceLog

  /** A trace call: the footer it makes, and the memory its data is taken from. */
  datatype Call = Call(footer: Footer, data: seq<byte>)

  /** How much data a call stores: parameters by pairs, binary data by whole double words, but
      small buffers take no more than half their size. */
  function StoredData(n: nat, f: Footer): nat {
    match f.format
    case Big => if f.count <= 2 then 8 else 16
    case Binary =>
      var clip := if n <= 256 then n / 2 else 256;
      if Padded(f.count as nat) > clip then clip else Padded(f.count as nat)
    case _ => 0
  }

  /** The sizes a trace buffer is built with. */
  predicate BufferSize(n: nat) { PowerOfTwo(n) && 64 <= n <= 0x8000 }

  predicate Callable(n: nat, c: Call) {
    && c.footer.format != Empty && |c.data| >= StoredData(n, c.footer)
    && (c.footer.format == Big ==> 1 <= c.footer.count <= 4)
  }

  /** What the call leaves in the buffer. */
  function EntryFor(n: nat, c: Call): Raw
    requires |c.data| >= StoredData(n, c.footer)
  {
    Raw(c.footer, c.data[..StoredData(n, c.footer)], FOOTER + StoredData(n, c.footer))
  }

  ghost predicate AllCallable(n: nat, cs: seq<Call>) { forall i :: 0 <= i < |cs| ==> Callable(n, cs[i]) }

  ghost function Entries(n: nat, cs: seq<Call>): (es: seq<Raw>)
    requires AllCallable(n, cs)
    ensures |es| == |cs|
  {
    seq(|cs|, i requires 0 <= i < |cs| => EntryFor(n, cs[i]))
  }

  // ----- what a call stores

  lemma SizeChoice(n: nat)
    requires BufferSize(n)
    ensures n % 16 == 0 && (n <= 256 || n >= 512)
  {
    assert PowerOfTwo(n / 2);
    SizeIsAligned(n / 2);
    if n > 256 {
      AboveQuarter(n);
    }
  }

  lemma AboveQuarter(n: nat)
    requires PowerOfTwo(n) && n > 256
    ensures n >= 512
  {
    var a := n / 2;
    assert PowerOfTwo(a);
    var b := a / 2;
    assert PowerOfTwo(b);
    var c := b / 2;
    assert PowerOfTwo(c);
    var d := c / 2;
    assert PowerOfTwo(d);
    SmallPower(d);
  }

  lemma SmallPower(d: nat)
    requires PowerOfTwo(d) && d > 16
    ensures d >= 32
  {
    var a := d / 2;
    assert PowerOfTwo(a);
    var b := a / 2;
    assert PowerOfTwo(b);
    var c := b / 2;
    assert PowerOfTwo(c);
  }

  /** A binary entry is stored whole unless its data is clipped; all others always are. */
  predicate Unclipped(n: nat, f: Footer) {
    f.format == Binary && n <= 256 ==> Padded(f.count as nat) <= n / 2
  }

  /** Every call stores an entry the buffer can hold; it stores all the data the footer
      announces exactly when that is not clipped. */
  lemma CallStorable(n: nat, c: Call)
    requires BufferSize(n) && Callable(n, c)
    ensures Storable(EntryFor(n, c)) && |LogBytes(EntryFor(n, c))| <= n && |LogBytes(EntryFor(n, c))| % 8 == 0
    ensures Whole(EntryFor(n, c)) <==> Unclipped(n, c.footer)
  {
    SizeChoice(n);
    BigPadding(c.footer);
  }

  lemma BigPadding(f: Footer)
    requires f.format == Big ==> 1 <= f.count <= 4
    ensures f.format == Big ==> Padded(ParmBytes(f)) == if f.count <= 2 then 8 else 16
  {
  }

  // ----- the order of the stores

  /** Where a byte lies from an offset `p` further on. */
  lemma IndexShift(i: nat, offset: u32, p: nat, n: nat)
    requires PowerOfTwo(n) && FOOTER <= n <= 0x8000 && i < n && p <= n
    ensures (i - (offset + p) % POW2_32) % n
         == var k := (i - offset) % n; if k >= p then k - p else k - p + n
  {
    SizeDivides(n);
    var m: nat :| n * m == POW2_32;
    var x := offset + p;
    var q := x / POW2_32;
    assert POW2_32 * q == n * (m * q);
    ModPlus(i - x, n, m * q);
    assert i - x % POW2_32 == n * (m * q) + (i - x);
    ShiftBack(i - offset, p, n);
  }

  lemma ShiftBack(d: int, p: nat, n: nat)
    requires n > 0 && p <= n
    ensures (d - p) % n == var k := d % n; if k >= p then k - p else k - p + n
  {
    var k, r := d % n, d / n;
    assert d == n * r + k;
    if k >= p {
      ModUnique(d - p, n, r, k - p);
    } else {
      assert n * (r - 1) == n * r - n;
      ModUnique(d - p, n, r - 1, k - p + n);
    }
  }

  /** The footer is stored first and the data after it; the buffer is as after one store. */
  lemma FooterThenData(cb: seq<byte>, offset: u32, parms: seq<byte>, footer: seq<byte>)
    requires Usable(cb) && |parms| + |footer| <= |cb|
    ensures Put(Put(cb, (offset + |parms|) % POW2_32, footer), offset, parms) == Put(cb, offset, parms + footer)
  {
    var a := Put(Put(cb, (offset + |parms|) % POW2_32, footer), offset, parms);
    var b := Put(cb, offset, parms + footer);
    forall i | 0 <= i < |cb|
      ensures a[i] == b[i]
    {
      PutPair(cb, offset, parms, footer, i);
    }
  }

  lemma PutPair(cb: seq<byte>, offset: u32, parms: seq<byte>, footer: seq<byte>, i: nat)
    requires Usable(cb) && |parms| + |footer| <= |cb| && i < |cb|
    ensures Put(Put(cb, (offset + |parms|) % POW2_32, footer), offset, parms)[i] == Put(cb, offset, parms + footer)[i]
  {
    IndexShift(i, offset, |parms|, |cb|);
  }

  /** The byte that marks an entry complete is stored last. */
  lemma ThenComplete(cb: seq<byte>, offset: u32, b: seq<byte>, at: nat, flag: byte)
    requires Usable(cb) && |b| <= |cb| && at < |b|
    ensures Put(Put(cb, offset, b), (offset + at) % POW2_32, [flag]) == Put(cb, offset, b[at := flag])
  {
    var x := Put(Put(cb, offset, b), (offset + at) % POW2_32, [flag]);
    var y := Put(cb, offset, b[at := flag]);
    forall i | 0 <= i < |cb|
      ensures x[i] == y[i]
    {
      IndexShift(i, offset, at, |cb|);
    }
  }

  /** Storing the footer first leaves the old bytes in place of the data. */
  lemma BegunStore(cb: seq<byte>, offset: u32, k: nat, footer: seq<byte>)
    requires Usable(cb) && k + |footer| <= |cb|
    ensures Put(cb, (offset + k) % POW2_32, footer) == Put(cb, offset, Cyclic(Ring(cb), offset, k) + footer)
  {
    var before, x := Cyclic(Ring(cb), offset, k), Put(cb, (offset + k) % POW2_32, footer);
    var y := Put(cb, offset, before + footer);
    forall i | 0 <= i < |cb|
      ensures x[i] == y[i]
    {
      IndexShift(i, offset, k, |cb|);
      ReadsBack(cb, offset, i);
    }
  }

  lemma ReadsBack(cb: seq<byte>, offset: u32, i: nat)
    requires i < |cb|
    ensures cb[(offset + (i - offset) % |cb|) % |cb|] == cb[i]
  {
    var n := |cb|;
    var q, k := (i - offset) / n, (i - offset) % n;
    assert i - offset == n * q + k;
    assert offset + k == n * (0 - q) + i;
    ModUnique(offset + k, n, 0 - q, i);
  }

  lemma Overwrite(cb: seq<byte>, offset: u32, b: seq<byte>, d: seq<byte>)
    requires 0 < |cb| && |d| <= |b| <= |cb|
    ensures Put(Put(cb, offset, b), offset, d) == Put(cb, offset, d + b[|d|..])
  {
  }

  lemma FlagSet(parms: seq<byte>, open: seq<byte>, done: seq<byte>)
    requires |open| == |done| > 2 && done == open[2 := 1]
    ensures (parms + open)[|parms| + 2 := 1] == parms + done
  {
  }

  /** The completion flag is the third byte of a footer. */
  lemma FlagIsThird(f: Footer)
    ensures FooterBytes(f.(complete := 1)) == FooterBytes(f.(complete := 0))[2 := 1]
  {
  }

  lemma StoresAreOne(cb: seq<byte>, offset: u32, parms: seq<byte>, open: seq<byte>, done: seq<byte>)
    requires Usable(cb) && |open| == |done| > 2 && done == open[2 := 1] && |parms| + |open| <= |cb|
    ensures var begun := Put(cb, (offset + |parms|) % POW2_32, open);
      Put(Put(begun, offset, parms), (offset + (|parms| + 2)) % POW2_32, [1]) == Put(cb, offset, parms + done)
  {
    FooterThenData(cb, offset, parms, open);
    ThenComplete(cb, offset, parms + open, |parms| + 2, 1);
    FlagSet(parms, open, done);
  }

  /** The first store of a call: the footer, not yet complete. */
  ghost function Begun(cb: seq<byte>, offset: u32, c: Call): seq<byte>
    requires |cb| > 0
  {
    Put(cb, (offset + StoredData(|cb|, c.footer)) % POW2_32, FooterBytes(c.footer.(complete := 0)))
  }

  /** The stores of a call, footer first, data next, completion flag last, are one store of
      its entry. */
  lemma CallStoresEntry(cb: seq<byte>, offset: u32, c: Call)
    requires BufferSize(|cb|) && Callable(|cb|, c) && c.footer.complete == 1
    ensures var s := StoredData(|cb|, c.footer);
      Put(Put(Begun(cb, offset, c), offset, c.data[..s]), (offset + (s + 2)) % POW2_32, [1])
      == Put(cb, offset, LogBytes(EntryFor(|cb|, c)))
  {
    CallStorable(|cb|, c);
    FlagIsThird(c.footer);
    StoresAreOne(cb, offset, c.data[..StoredData(|cb|, c.footer)], FooterBytes(c.footer.(complete := 0)), FooterBytes(c.footer));
  }

  /** What was stored last stands before the new offset. */
  lemma PutEnds(cb: seq<byte>, offset: u32, b: seq<byte>)
    requires Usable(cb) && |b| <= |cb|
    ensures Holds(Ring(Put(cb, offset, b)), (offset + |b|) % POW2_32, |b|, b)
  {
    var after, at := Put(cb, offset, b), offset + |b|;
    forall j | 1 <= j <= |b|
      ensures Back(Ring(after), at, j) == b[|b| - j]
    {
      PutAt(cb, offset, b, j);
    }
    HoldsWraps(after, at, |b|, b);
  }

  lemma CaughtBytes(cb: seq<byte>, offset: u32, d: seq<byte>, k: nat, footer: seq<byte>)
    requires Usable(cb) && |d| <= k && k + |footer| <= |cb|
    ensures Put(Put(cb, (offset + k) % POW2_32, footer), offset, d)
         == Put(cb, offset, d + Cyclic(Ring(cb), offset, k)[|d|..] + footer)
  {
    var b := Cyclic(Ring(cb), offset, k) + footer;
    BegunStore(cb, offset, k, footer);
    Overwrite(cb, offset, b, d);
    assert d + b[|d|..] == d + Cyclic(Ring(cb), offset, k)[|d|..] + footer;
  }

  lemma CaughtFooter(cb: seq<byte>, offset: u32, d: seq<byte>, k: nat, f: Footer, footer: seq<byte>, caught: seq<byte>)
    requires Usable(cb) && |d| <= k && k + FOOTER <= |cb| && footer == FooterBytes(f)
    requires caught == Put(Put(cb, (offset + k) % POW2_32, footer), offset, d)
    ensures FooterAt(Ring(caught), (offset + (k + FOOTER)) % POW2_32) == f
  {
    var older := d + Cyclic(Ring(cb), offset, k)[|d|..];
    CaughtBytes(cb, offset, d, k, footer);
    PutEnds(cb, offset, older + footer);
    FooterLast(Ring(caught), (offset + (k + FOOTER)) % POW2_32, older, f);
  }

  lemma FooterLast(ring: int -> byte, offset: int, older: seq<byte>, f: Footer)
    requires Holds(ring, offset, |older| + FOOTER, older + FooterBytes(f))
    ensures FooterAt(ring, offset) == f
  {
    var e := Raw(f, [], FOOTER);
    assert LogBytes(e) == FooterBytes(f);
    FooterFound(ring, offset, |older| + FOOTER, older, e);
  }

  /** A call caught after its first store, with `j` bytes of data stored, has left an entry
      whose footer a reader finds, and takes for a partial entry. */
  lemma CaughtInCall(cb: seq<byte>, offset: u32, c: Call, j: nat, caught: seq<byte>)
    requires BufferSize(|cb|) && (c.footer.format == Big || c.footer.format == Binary)
    requires j <= StoredData(|cb|, c.footer) <= |c.data| && caught == Put(Begun(cb, offset, c), offset, c.data[..j])
    ensures FooterAt(Ring(caught), (offset + (StoredData(|cb|, c.footer) + FOOTER)) % POW2_32) == c.footer.(complete := 0)
    ensures Partial(c.footer.(complete := 0))
  {
    var f := c.footer.(complete := 0);
    StoredFits(|cb|, c.footer);
    CaughtFooter(cb, offset, c.data[..j], StoredData(|cb|, c.footer), f, FooterBytes(f), caught);
  }

  lemma StoredFits(n: nat, f: Footer)
    requires BufferSize(n)
    ensures StoredData(n, f) + FOOTER <= n
  {
    SizeChoice(n);
  }

  // ----- what is found again

  ghost function Buffer(n: nat, cs: seq<Call>): State
    requires n > 0 && AllCallable(n, cs)
  {
    Written(n, AllBytes(Entries(n, cs)))
  }

  ghost function Found(n: nat, cs: seq<Call>): seq<Raw>
    requires n > 0 && AllCallable(n, cs)
  {
    Walk(Look(Buffer(n, cs).cb), Buffer(n, cs).offset, n)
  }

  /** Going back over the last `left` bytes, every entry that fits them was stored whole. */
  ghost predicate NoneClipped(n: nat, cs: seq<Call>, left: nat)
    decreases |cs|
  {
    left >= FOOTER && cs != [] ==>
      var c := cs[|cs| - 1];
      var size := FOOTER + StoredData(n, c.footer);
      size <= left ==> Unclipped(n, c.footer) && NoneClipped(n, cs[..|cs| - 1], left - size)
  }

  lemma {:induction false} NoneClippedIsReach(n: nat, cs: seq<Call>, left: nat)
    requires BufferSize(n) && AllCallable(n, cs)
    ensures NoneClipped(n, cs, left) <==> Reach(Entries(n, cs), left, AllWhole())
    decreases |cs|
  {
    if left >= FOOTER && cs != [] {
      var c, front := cs[|cs| - 1], cs[..|cs| - 1];
      CallStorable(n, c);
      assert Entries(n, cs)[..|cs| - 1] == Entries(n, front);
      var size := FOOTER + StoredData(n, c.footer);
      if size <= left {
        NoneClippedIsReach(n, front, left - size);
      }
    }
  }

  lemma BufferHolds(n: nat, cs: seq<Call>)
    requires BufferSize(n) && AllCallable(n, cs)
    ensures Holds(Ring(Buffer(n, cs).cb), Buffer(n, cs).offset, n, Log(n, AllBytes(Entries(n, cs))))
    ensures forall i :: 0 <= i < |cs| ==> Storable(Entries(n, cs)[i])
  {
    var es := Entries(n, cs);
    var bs := AllBytes(es);
    forall i | 0 <= i < |cs|
      ensures |bs[i]| <= n && Storable(es[i])
    {
      CallStorable(n, cs[i]);
    }
    WriterHolds(n, bs);
  }

  /** Round trip: whatever was traced, the walk finds the newest entries the buffer still
      holds, in order, if and only if none of them was clipped. */
  lemma TracedIsFound(n: nat, cs: seq<Call>)
    requires BufferSize(n) && AllCallable(n, cs)
    ensures Matches(Found(n, cs), Entries(n, cs), n) <==> NoneClipped(n, cs, n)
  {
    BufferHolds(n, cs);
    var s := Buffer(n, cs);
    WalkRecovers(s.cb, s.offset, n, n, Entries(n, cs));
    NoneClippedIsReach(n, cs, n);
  }

  /** The newest entry is found with its footer, and as it was traced if and only if it was
      not clipped. */
  lemma NewestIsFound(n: nat, cs: seq<Call>)
    requires BufferSize(n) && AllCallable(n, cs) && cs != []
    ensures var c := cs[|cs| - 1];
      && Found(n, cs) != [] && Found(n, cs)[0].size == EntrySize(c.footer)
      && (Found(n, cs)[0] == EntryFor(n, c) <==> Unclipped(n, c.footer))
  {
    var s, es, k := Buffer(n, cs), Entries(n, cs), |cs| - 1;
    BufferHolds(n, cs);
    LogSplit(n, es, |es|);
    assert AllBytes(es)[..|es|] == AllBytes(es);
    CallStorable(n, cs[k]);
    RecoverStep(s.cb, s.offset, n, Log(n, AllBytes(es)[..k]), es[k], EntryAt(Ring(s.cb), s.offset));
    NewestOf(Look(s.cb), s.offset, n, es[k], Whole(es[k]));
    FooterFound(Ring(s.cb), s.offset, n, Log(n, AllBytes(es)[..k]), es[k]);
    EntryIs(Ring(s.cb), s.offset, es[k]);
  }

  lemma NewestOf(look: u32 -> Raw, offset: u32, n: nat, e: Raw, whole: bool)
    requires Finds(look(offset), e, n, whole) && FOOTER <= n && e.size <= n
    ensures Walk(look, offset, n) != [] && Walk(look, offset, n)[0].size == look(offset).size
    ensures Walk(look, offset, n)[0] == e <==> whole
  {
  }

  /** What is found of a clipped entry ends with the data that was stored; old bytes stand
      before it. */
  lemma OldBytesBefore(ring: int -> byte, offset: int, n: nat, older: seq<byte>, e: Raw)
    requires Storable(e) && EntrySize(e.footer) <= n && Holds(ring, offset, n, older + LogBytes(e))
    ensures var p := EntryAt(ring, offset).parms; |p| >= |e.parms| && p[|p| - |e.parms|..] == e.parms
  {
    FooterFound(ring, offset, n, older, e);
    EntryIs(ring, offset, e);
    ParmsFound(ring, offset, n, older, e);
    CyclicTail(ring, offset, EntrySize(e.footer), e.size);
  }

  lemma CyclicTail(ring: int -> byte, offset: int, long: nat, short: nat)
    requires FOOTER <= short <= long
    ensures Cyclic(ring, offset - long, long - FOOTER)[long - short..] == Cyclic(ring, offset - short, short - FOOTER)
  {
    var a, b := Cyclic(ring, offset - long, long - FOOTER)[long - short..], Cyclic(ring, offset - short, short - FOOTER);
    forall i | 0 <= i < short - FOOTER
      ensures a[i] == b[i]
    {
      assert offset - long + (long - short + i) == offset - short + i;
    }
  }

  lemma ClippedShowsOldBytes(n: nat, cs: seq<Call>)
    requires BufferSize(n) && AllCallable(n, cs) && cs != [] && EntrySize(cs[|cs| - 1].footer) <= n
    ensures var s, c := Buffer(n, cs), cs[|cs| - 1];
      var p, stored := EntryAt(Ring(s.cb), s.offset).parms, c.data[..StoredData(n, c.footer)];
      |p| >= |stored| && p[|p| - |stored|..] == stored
  {
    var s, es, k := Buffer(n, cs), Entries(n, cs), |cs| - 1;
    BufferHolds(n, cs);
    LogSplit(n, es, |es|);
    assert AllBytes(es)[..|es|] == AllBytes(es);
    OldBytesBefore(Ring(s.cb), s.offset, n, Log(n, AllBytes(es)[..k]), es[k]);
  }

  /** A 200-byte binary trace into a buffer of 256 bytes: 136 bytes are stored, and the walk
      steps back by 208. */
  lemma ClippedAt256(cs: seq<Call>, c: Call)
    requires AllCallable(256, cs) && Callable(256, c) && c.footer.format == Binary && c.footer.count == 200
    ensures AllCallable(256, cs + [c])
    ensures Found(256, cs + [c]) != [] && Found(256, cs + [c])[0].size == 208 && EntryFor(256, c).size == 136
    ensures !Matches(Found(256, cs + [c]), Entries(256, cs + [c]), 256)
  {
    assert BufferSize(256) by {
      assert PowerOfTwo(64);
      assert PowerOfTwo(256);
    }
    var all := cs + [c];
    NewestIsFound(256, all);
    TracedIsFound(256, all);
  }
}
