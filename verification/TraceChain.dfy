/** From the traces of the embedded core to what a reader of the converted buffer gets. */
module TraceChain {
  import opened Bytes
  import opened TraceTime
  import opened TraceBuffer
  import opened TraceEntry
  import opened TraceConverter
  import opened TraceLog
  import opened TraceWriter

  /** The buffer of `t` is what the calls `cs` left. */
  ghost predicate Traced(t: Trace, n: nat, cs: seq<Call>) {
    BufferSize(n) && AllCallable(n, cs) && t.hz > 0 && State(t.cb, t.offset) == Buffer(n, cs)
  }

  ghost function WalkOf(t: Trace): seq<Raw>
    requires |t.cb| > 0
  {
    Walk(Look(t.cb), t.offset, |t.cb|)
  }

  // ----- the converter can work on it

  /** The `i`th entry found is the `i`th newest traced, but for the completion flag of the
      last one. */
  lemma {:induction false} MatchesAt(walk: seq<Raw>, es: seq<Raw>, left: nat, i: nat)
    requires Matches(walk, es, left) && i < |walk|
    ensures |walk| <= |es| && (i < |walk| - 1 ==> walk[i] == es[|es| - 1 - i])
    ensures walk[i].footer.(complete := 0) == es[|es| - 1 - i].footer.(complete := 0)
    decreases |es|
  {
    var e := es[|es| - 1];
    if e.size <= left && |walk| > 1 {
      var rest := es[..|es| - 1];
      MatchesAt(walk[1..], rest, left - e.size, if i == 0 then 0 else i - 1);
    }
  }

  lemma {:induction false} OffsetAligned(n: nat, bs: seq<seq<byte>>)
    requires n > 0 && forall i :: 0 <= i < |bs| ==> |bs[i]| % 8 == 0
    ensures Written(n, bs).offset % 8 == 0
  {
    if bs != [] {
      OffsetAligned(n, bs[..|bs| - 1]);
      StepAligned(Written(n, bs[..|bs| - 1]).offset, |bs[|bs| - 1]|);
    }
  }

  lemma StepAligned(offset: u32, k: nat)
    requires offset % 8 == 0 && k % 8 == 0
    ensures (offset + k) % POW2_32 % 8 == 0
  {
    var x := offset + k;
    assert x == POW2_32 * (x / POW2_32) + x % POW2_32;
  }

  lemma FooterBounded(n: nat, cb: seq<byte>, c: Call, f: Footer)
    requires Callable(n, c) && Padded(ParmBytes(c.footer)) <= n == |cb| && f.(complete := 0) == c.footer.(complete := 0)
    ensures Bounded(cb, f)
  {
  }

  /** What the converter needs of the calls: no entry it meets whole was clipped, and no footer
      announces more than the buffer has. */
  ghost predicate Readable(n: nat, cs: seq<Call>) {
    NoneClipped(n, cs, n) && forall i :: 0 <= i < |cs| ==> Padded(ParmBytes(cs[i].footer)) <= n
  }

  /** A buffer of readable calls meets the converter's demands. */
  lemma TracedDemands(t: Trace, n: nat, cs: seq<Call>)
    requires Traced(t, n, cs) && Readable(n, cs)
    ensures |t.cb| == n && t.offset % 8 == 0 && Demands(t) && WalkOf(t) == Found(n, cs) && Matches(WalkOf(t), Entries(n, cs), n)
  {
    TracedIsFound(n, cs);
    AllAligned(n, cs);
    var w := WalkOf(t);
    forall i | 0 <= i < |w|
      ensures Bounded(t.cb, w[i].footer)
    {
      FoundBounded(n, cs, w, t.cb, i);
    }
  }

  lemma FoundFooter(n: nat, cs: seq<Call>, w: seq<Raw>, i: nat) returns (k: nat)
    requires AllCallable(n, cs) && Matches(w, Entries(n, cs), n) && i < |w|
    ensures k < |cs| && k == |cs| - 1 - i && w[i].footer.(complete := 0) == cs[k].footer.(complete := 0)
  {
    MatchesAt(w, Entries(n, cs), n, i);
    k := |cs| - 1 - i;
    assert Entries(n, cs)[k].footer == cs[k].footer;
  }

  lemma FoundBounded(n: nat, cs: seq<Call>, w: seq<Raw>, cb: seq<byte>, i: nat)
    requires AllCallable(n, cs) && Readable(n, cs) && Matches(w, Entries(n, cs), n) && |cb| == n && i < |w|
    ensures Bounded(cb, w[i].footer)
  {
    var k := FoundFooter(n, cs, w, i);
    FooterBounded(n, cb, cs[k], w[i].footer);
  }

  lemma AllAligned(n: nat, cs: seq<Call>)
    requires BufferSize(n) && AllCallable(n, cs)
    ensures Buffer(n, cs).offset % 8 == 0
  {
    var bs := AllBytes(Entries(n, cs));
    forall i | 0 <= i < |bs|
      ensures |bs[i]| % 8 == 0
    {
      CallStorable(n, cs[i]);
    }
    OffsetAligned(n, bs);
  }

  /** A buffer of at least 256 bytes has room for what any footer announces. */
  lemma AlwaysRoom(n: nat, cs: seq<Call>)
    requires n >= 256 && AllCallable(n, cs)
    ensures Readable(n, cs) <==> NoneClipped(n, cs, n)
  {
  }

  // ----- at the true times

  /** The last `m` of the times, newest first. */
  function NewestFirst(times: seq<u64>, m: nat): (r: seq<u64>)
    requires m <= |times|
    ensures |r| == m
  {
    seq(m, i requires 0 <= i < m => times[|times| - 1 - i])
  }

  /** The stamps are those of the times, and neighbours are close enough. */
  ghost predicate Timed(cs: seq<Call>, times: seq<u64>, max: u32) {
    && |times| == |cs| && (forall i :: 0 <= i < |cs| ==> Stamp(cs[i].footer) == times[i] % POW2_32)
    && forall i :: 0 < i < |times| ==> InWindow(times[i], times[i - 1], max)
  }

  lemma {:induction false} WindowsBack(times: seq<u64>, m: nat, max: u32, newest: u64)
    requires m <= |times| && (forall i :: 0 < i < |times| ==> InWindow(times[i], times[i - 1], max))
    requires m > 0 ==> InWindow(newest, times[|times| - 1], max)
    ensures AllInWindow(newest, NewestFirst(times, m), max)
    decreases m
  {
    if m > 0 {
      var k := |times| - 1;
      assert NewestFirst(times, m)[1..] == NewestFirst(times[..k], m - 1);
      WindowsBack(times[..k], m - 1, max, times[k]);
    }
  }

  lemma StampsMatch(n: nat, cs: seq<Call>, walk: seq<Raw>, times: seq<u64>, max: u32)
    requires AllCallable(n, cs) && Matches(walk, Entries(n, cs), n) && Timed(cs, times, max) && |walk| <= |cs|
    ensures StampsOf(walk) == Stamps(NewestFirst(times, |walk|))
  {
    var a, b := StampsOf(walk), Stamps(NewestFirst(times, |walk|));
    assert |a| == |b| == |walk|;
    forall i: nat | i < |walk|
      ensures a[i] == b[i]
    {
      StampAt(n, cs, walk, times, max, i);
    }
  }

  lemma StampAt(n: nat, cs: seq<Call>, walk: seq<Raw>, times: seq<u64>, max: u32, i: nat)
    requires AllCallable(n, cs) && Matches(walk, Entries(n, cs), n) && Timed(cs, times, max) && i < |walk| <= |cs|
    ensures StampsOf(walk)[i] == Stamps(NewestFirst(times, |walk|))[i]
  {
    var k := FoundFooter(n, cs, walk, i);
    assert Stamp(walk[i].footer) == Stamp(cs[k].footer) == times[k] % POW2_32;
  }

  /** What the converter makes of the traces: the entries the buffer still holds, newest
      first, each at its true time. */
  ghost function Expected(t: Trace, data: seq<byte>, times: seq<u64>): seq<seq<byte>>
    requires |t.cb| > 0 && t.hz > 0 && |WalkOf(t)| <= |times|
  {
    Conversions(Rewriter(t), data, WalkOf(t), NewestFirst(times, |WalkOf(t)|), t.timeAdj)
  }

  lemma ConvertsTraces(t: Trace, n: nat, cs: seq<Call>, times: seq<u64>, data: seq<byte>)
    requires Traced(t, n, cs) && Readable(n, cs) && cs != [] && Timed(cs, times, t.maxTimeChange)
    requires var newest := times[|times| - 1]; t.tbu == newest / POW2_32 && newest / 0x1000_0000_0000_0000 % 2 == 0
    ensures |t.cb| > 0 && |WalkOf(t)| <= |times| && Converted(t, data) == Expected(t, data, times)
  {
    var w := WalkOf(t);
    assert Matches(w, Entries(n, cs), n) && w != [] by {
      TracedDemands(t, n, cs);
      NewestIsFound(n, cs);
    }
    TimesOfWalk(n, cs, w, times, t.maxTimeChange);
    ConvertedAtTrueTimes(t, data, NewestFirst(times, |w|));
  }

  /** The times of what is found fit its stamps, and lie in the window. */
  lemma TimesOfWalk(n: nat, cs: seq<Call>, w: seq<Raw>, times: seq<u64>, max: u32)
    requires AllCallable(n, cs) && Matches(w, Entries(n, cs), n) && w != [] && cs != [] && Timed(cs, times, max)
    ensures |w| <= |times| && StampsOf(w) == Stamps(NewestFirst(times, |w|))
    ensures NewestFirst(times, |w|)[0] == times[|times| - 1]
    ensures AllInWindow(times[|times| - 1], NewestFirst(times, |w|), max)
  {
    MatchesAt(w, Entries(n, cs), n, 0);
    StampsMatch(n, cs, w, times, max);
    NewestWindows(times, |w|, max);
  }

  lemma NewestWindows(times: seq<u64>, m: nat, max: u32)
    requires 0 < m <= |times| && (forall i :: 0 < i < |times| ==> InWindow(times[i], times[i - 1], max))
    ensures NewestFirst(times, m)[0] == times[|times| - 1]
    ensures AllInWindow(times[|times| - 1], NewestFirst(times, m), max)
  {
    var newest := times[|times| - 1];
    SelfInWindow(newest, max);
    WindowsBack(times, m, max, newest);
  }

  lemma SelfInWindow(t: u64, max: u32)
    ensures InWindow(t, t, max)
  {
  }

  /** Tracing, converting and reading back: the conversion succeeds, shows the traced
      entries at their true times, and its size words lead back to every one that is whole. */
  method ConvertTraced(t: Trace, n: nat, ghost cs: seq<Call>, ghost times: seq<u64>, inSize: nat,
                       fte: FspEntry, area: array<byte>, ioSize: nat) returns (r: Outcome)
    requires Traced(t, n, cs) && Readable(n, cs) && cs != [] && Timed(cs, times, t.maxTimeChange)
    requires var newest := times[|times| - 1]; t.tbu == newest / POW2_32 && newest / 0x1000_0000_0000_0000 % 2 == 0
    requires t.version == 2 && inSize >= 56 && ioSize == 40 + area.Length
    requires fte.data.Length == DATA && fte.data != area
    modifies fte`head, fte.data, area
    ensures |t.cb| > 0 && |WalkOf(t)| <= |times| && Matches(WalkOf(t), Entries(n, cs), n)
    ensures var all := Expected(t, old(fte.data[..]), times);
      && r.Done? && Shows(r, all, area[..])
      && ReadBack(Last(JoinBackward(all), area.Length)) == WholeEntries(all, area.Length)
  {
    TracedDemands(t, n, cs);
    ConvertsTraces(t, n, cs, times, fte.data[..]);
    ReadBackShown(t, fte.data[..], area.Length);
    r := Ppe2Fsp(t, inSize, fte, area, ioSize);
  }

  /** What a reader finds in an entry that a call should have become: the time, and the string's
      hash above all the data. */
  ghost predicate TellsCall(t: Trace, b: seq<byte>, c: Call, time: u64)
    requires t.hz > 0
  {
    var f := c.footer;
    && |b| >= STAMP_AND_HEAD + 4
    && var h := ReadHead(b);
      && (time / t.hz < POW2_32 ==> h.tbh * 1_000_000_000 + h.tbl == time * 1_000_000_000 / t.hz && h.tbl < 1_000_000_000)
      && HashOf(h.hash, t.hashPrefix, if Partial(f) then t.partialHash else f.stringId)
      && h.tid == t.instanceId && h.length == Announced(f)
      && var d := b[STAMP_AND_HEAD..];
        if Partial(f) then HashOf(BeVal(d[..4]), t.hashPrefix, f.stringId)
        else if f.format == Tiny then d[..4] == [0, 0, f.complete, f.count]
        else
          var n := if f.format == Big then 4 * f.count as nat else f.count as nat;
          n <= |d| && n <= |c.data| && d[..n] == c.data[..n]
  }

  /** Every entry shown, but the oldest one found, which may be cut, tells what its call traced,
      at the call's time and the adjustment. */
  lemma {:induction false} ExpectedTells(t: Trace, n: nat, cs: seq<Call>, times: seq<u64>, data: seq<byte>, i: nat)
      returns (b: seq<byte>, c: Call, time: u64)
    requires Traced(t, n, cs) && Readable(n, cs) && |times| == |cs| && |data| == DATA && i + 1 < |WalkOf(t)|
    ensures |WalkOf(t)| <= |cs| && b == Expected(t, data, times)[i]
    ensures c == cs[|cs| - 1 - i] && time == (times[|cs| - 1 - i] + t.timeAdj) % POW2_64
    ensures TellsCall(t, b, c, time)
  {
    var e;
    e, c := WholeEntry(t, n, cs, i);
    time := (times[|cs| - 1 - i] + t.timeAdj) % POW2_64;
    var d;
    d, b := ExpectedIs(t, data, times, i, e, time);
    WholeTells(t, n, c, d, time, b);
  }

  lemma {:induction false} WholeEntry(t: Trace, n: nat, cs: seq<Call>, i: nat) returns (e: Raw, c: Call)
    requires Traced(t, n, cs) && Readable(n, cs) && i + 1 < |WalkOf(t)|
    ensures |WalkOf(t)| <= |cs| && c == cs[|cs| - 1 - i] && Callable(n, c)
    ensures e == WalkOf(t)[i] == EntryFor(n, c) && Convertible(e)
  {
    FoundMatches(t, n, cs);
    WholeFound(n, cs, WalkOf(t), i);
    AllConvertible(t, n, cs);
    c := cs[|cs| - 1 - i];
    e := WalkOf(t)[i];
  }

  lemma {:induction false} ExpectedIs(t: Trace, data: seq<byte>, times: seq<u64>, i: nat, e: Raw, time: u64)
      returns (d: seq<byte>, b: seq<byte>)
    requires |t.cb| > 0 && t.hz > 0 && i < |WalkOf(t)| <= |times| && |data| == DATA
    requires e == WalkOf(t)[i] && Convertible(e) && time == (times[|times| - 1 - i] + t.timeAdj) % POW2_64
    ensures |d| == DATA && b == EntryBytes(t, d, e, time) && b == Expected(t, data, times)[i]
  {
    d, b := ConvertedIs(t, data, times, WalkOf(t), i, e, time);
  }

  lemma {:induction false} ConvertedIs(t: Trace, data: seq<byte>, times: seq<u64>, w: seq<Raw>, i: nat, e: Raw, time: u64)
      returns (d: seq<byte>, b: seq<byte>)
    requires t.hz > 0 && i < |w| <= |times| && |data| == DATA
    requires e == w[i] && Convertible(e) && time == (times[|times| - 1 - i] + t.timeAdj) % POW2_64
    ensures |d| == DATA && b == EntryBytes(t, d, e, time)
    ensures b == Conversions(Rewriter(t), data, w, NewestFirst(times, |w|), t.timeAdj)[i]
  {
    var newest := NewestFirst(times, |w|);
    assert newest[i] == times[|times| - 1 - i];
    d, b := EntryConverted(t, data, w, newest, i, e, time);
  }

  lemma FoundMatches(t: Trace, n: nat, cs: seq<Call>)
    requires Traced(t, n, cs) && Readable(n, cs)
    ensures Matches(WalkOf(t), Entries(n, cs), n)
  {
    TracedDemands(t, n, cs);
  }

  lemma {:induction false} WholeFound(n: nat, cs: seq<Call>, w: seq<Raw>, i: nat)
    requires AllCallable(n, cs) && Matches(w, Entries(n, cs), n) && i + 1 < |w|
    ensures |w| <= |cs| && Callable(n, cs[|cs| - 1 - i]) && w[i] == EntryFor(n, cs[|cs| - 1 - i])
  {
    var es := Entries(n, cs);
    MatchesAt(w, es, n, i);
    assert es[|cs| - 1 - i] == EntryFor(n, cs[|cs| - 1 - i]);
  }

  lemma AllConvertible(t: Trace, n: nat, cs: seq<Call>)
    requires Traced(t, n, cs) && Readable(n, cs)
    ensures forall k :: 0 <= k < |WalkOf(t)| ==> Convertible(WalkOf(t)[k])
  {
    TracedDemands(t, n, cs);
    WalkShaped(Ring(t.cb), t.offset, |t.cb|);
  }

  lemma WholeTells(t: Trace, n: nat, c: Call, data: seq<byte>, time: u64, b: seq<byte>)
    requires BufferSize(n) && Callable(n, c) && Convertible(EntryFor(n, c)) && t.hz > 0 && |data| == DATA
    requires b == EntryBytes(t, data, EntryFor(n, c), time)
    ensures TellsCall(t, b, c, time)
  {
    EntryTells(t, data, EntryFor(n, c), time);
    EntryKeepsData(t, data, EntryFor(n, c), time);
  }

  // ----- a capture in the middle of a call

  /** The newest entry of a buffer caught in a call is shown as a partial entry: the hash of
      the partial-entry string, and as its data the hash of the string being traced. */
  lemma CaughtShowsPartial(t: Trace, cb: seq<byte>, offset: u32, c: Call, j: nat, data: seq<byte>, time: u64)
    requires BufferSize(|cb|) && Callable(|cb|, c) && (c.footer.format == Big || c.footer.format == Binary)
    requires j <= StoredData(|cb|, c.footer) && |data| == DATA && t.hz > 0
    requires t.cb == Put(Begun(cb, offset, c), offset, c.data[..j])
    requires t.offset == (offset + (StoredData(|cb|, c.footer) + FOOTER)) % POW2_32
    ensures WalkOf(t) != [] && Convertible(WalkOf(t)[0])
    ensures var b := EntryBytes(t, data, WalkOf(t)[0], time);
      && HashOf(ReadHead(b).hash, t.hashPrefix, t.partialHash)
      && HashOf(BeVal(b[STAMP_AND_HEAD..][..4]), t.hashPrefix, c.footer.stringId)
  {
    CaughtInCall(cb, offset, c, j, t.cb);
    var f := c.footer.(complete := 0);
    NewestFooter(t, f);
    var e := WalkOf(t)[0];
    EntryTells(t, data, e, time);
    EntryKeepsData(t, data, e, time);
  }

  lemma NewestFooter(t: Trace, f: Footer)
    requires |t.cb| >= FOOTER && FooterAt(Ring(t.cb), t.offset) == f && Partial(f) && ParmBytes(f) <= 256
    ensures WalkOf(t) != [] && WalkOf(t)[0].footer == f && Convertible(WalkOf(t)[0])
  {
    WalkShaped(Ring(t.cb), t.offset, |t.cb|);
    SizeIsWhole(f);
    assert Look(t.cb)(t.offset).footer == f;
  }
}
