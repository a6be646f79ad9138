/** `get_tables`: the build step that turns a list of registers into the three lookup
    tables the firmware searches. */
module SecurityGen {
  import opened Bytes
  import opened SecurityTables

  type u24 = x: int | 0 <= x < 0x100_0000

  function Base(a: u32): u24 { a % 0x100_0000 }

  /** A range of chiplets. */
  datatype Range = Range(lo: u8, hi: u8)

  predicate InRange(r: Range, c: int) { r.lo <= c <= r.hi }

  /** A middle byte and the low halves of the registers that share it. */
  datatype Entry = Entry(key: u8, lows: seq<u16>)

  /** The registers that occur in a range of chiplets. */
  datatype Group = Group(range: Range, entries: seq<Entry>)

  predicate Ascending(s: seq<int>) { forall i, j :: 0 <= i < j < |s| ==> s[i] < s[j] }

  ghost predicate SortedEntries(es: seq<Entry>) {
    && (forall i, j :: 0 <= i < j < |es| ==> es[i].key < es[j].key)
    && forall i :: 0 <= i < |es| ==> Ascending(es[i].lows) && es[i].lows != []
  }

  ghost predicate Sorted(g: Group) { SortedEntries(g.entries) }

  ghost predicate GroupHas(g: Group, a: u32) {
    InRange(g.range, Chiplet(a)) && exists i :: 0 <= i < |g.entries| && EntryHas(g.entries[i], a)
  }

  predicate EntryHas(e: Entry, a: u32) { e.key == Middle(a) && Low(a) in e.lows }

  // ----- step 4: tables from groups

  /** The size of table 3 after `entries`. */
  function Lows(entries: seq<Entry>): nat {
    if entries == [] then 0 else Lows(entries[..|entries| - 1]) + |entries[|entries| - 1].lows|
  }

  /** Tables 2 and 3 with `entries` appended, each key with the count so far. */
  function AddEntries(t2: seq<T2>, t3: seq<u16>, entries: seq<Entry>): (r: (seq<T2>, seq<u16>))
    requires |t3| + Lows(entries) < 0x1_0000
    ensures |r.0| == |t2| + |entries| && |r.1| == |t3| + Lows(entries)
    ensures t2 <= r.0 && t3 <= r.1
  {
    if entries == [] then (t2, t3)
    else
      var before, e := AddEntries(t2, t3, entries[..|entries| - 1]), entries[|entries| - 1];
      (before.0 + [T2(e.key, |before.1| + |e.lows|)], before.1 + e.lows)
  }

  /** The counts of table 2 end where table 3 ends. */
  predicate Tight(t2: seq<T2>, t3: seq<u16>) {
    if t2 == [] then t3 == [] else t2[|t2| - 1].count == |t3|
  }

  function Extend(t: Tables, g: Group): Tables
    requires |t.t2| + |g.entries| < 0x100 && |t.t3| + Lows(g.entries) < 0x1_0000
  {
    var r := AddEntries(t.t2, t.t3, g.entries);
    Tables(t.t1 + [T1(g.range.lo, g.range.hi, |t.t2| + |g.entries|)], r.0, r.1)
  }

  /** Where `AddEntries` puts an entry: its key, and its low halves as a slice of table 3. */
  ghost predicate Placed(t2: seq<T2>, t3: seq<u16>, at: nat, e: Entry)
    requires at < |t2|
  {
    var begin := if at == 0 then 0 else t2[at - 1].count;
    && t2[at].key == e.key && begin <= t2[at].count <= |t3| && t3[begin..t2[at].count] == e.lows
  }

  lemma PlacedStays(t2: seq<T2>, t3: seq<u16>, u2: seq<T2>, u3: seq<u16>, at: nat, e: Entry)
    requires at < |t2| && Placed(t2, t3, at, e) && t2 <= u2 && t3 <= u3
    ensures Placed(u2, u3, at, e)
  {
    var begin, end := if at == 0 then 0 else t2[at - 1].count, t2[at].count;
    assert u2[at] == t2[at] && (at > 0 ==> u2[at - 1] == t2[at - 1]);
    assert u3[begin..end] == t3[begin..end];
  }

  lemma PlacedLast(t2: seq<T2>, t3: seq<u16>, e: Entry)
    requires Tight(t2, t3) && |t3| + |e.lows| < 0x1_0000
    ensures Placed(t2 + [T2(e.key, |t3| + |e.lows|)], t3 + e.lows, |t2|, e)
    ensures Tight(t2 + [T2(e.key, |t3| + |e.lows|)], t3 + e.lows)
  {
    assert (t3 + e.lows)[|t3|..|t3| + |e.lows|] == e.lows;
  }

  lemma {:induction false} EntriesPlaced(t2: seq<T2>, t3: seq<u16>, entries: seq<Entry>, i: nat)
    requires Tight(t2, t3) && |t3| + Lows(entries) < 0x1_0000 && i < |entries|
    ensures var r := AddEntries(t2, t3, entries);
      Tight(r.0, r.1) && Placed(r.0, r.1, |t2| + i, entries[i])
    decreases |entries|
  {
    var n := |entries| - 1;
    var before := AddEntries(t2, t3, entries[..n]);
    if n > 0 {
      EntriesPlaced(t2, t3, entries[..n], if i < n then i else 0);
    }
    PlacedLast(before.0, before.1, entries[n]);
    if i < n {
      var r := AddEntries(t2, t3, entries);
      PlacedStays(before.0, before.1, r.0, r.1, |t2| + i, entries[i]);
    }
  }

  /** Table 1 covers table 2, and table 2 covers table 3. */
  predicate Closed(t: Tables) {
    && Tight(t.t2, t.t3)
    && (if t.t1 == [] then t.t2 == [] else t.t1[|t.t1| - 1].count == |t.t2|)
  }

  predicate Fits(t: Tables, g: Group) {
    |t.t2| + |g.entries| < 0x100 && |t.t3| + Lows(g.entries) < 0x1_0000
  }

  /** Appending a group leaves every slice that was there as it was. */
  lemma OldSlices(t: Tables, g: Group, i: nat, j: nat, k: nat)
    requires Fits(t, g)
    ensures i < |t.t1| ==> (InSlice1(Extend(t, g), i, j) <==> InSlice1(t, i, j))
    ensures j < |t.t2| ==> (InSlice2(Extend(t, g), j, k) <==> InSlice2(t, j, k))
    ensures j < |t.t2| ==> Extend(t, g).t2[j] == t.t2[j]
    ensures k < |t.t3| ==> Extend(t, g).t3[k] == t.t3[k]
  {
  }

  /** The new slice of table 2 holds the group's entries. */
  lemma NewSlice1(t: Tables, g: Group, j: nat)
    requires Closed(t) && Fits(t, g)
    ensures InSlice1(Extend(t, g), |t.t1|, j) <==> |t.t2| <= j < |t.t2| + |g.entries|
  {
  }

  /** Each entry's low halves are its slice of table 3. */
  lemma NewSlice2(t: Tables, g: Group, n: nat)
    requires Closed(t) && Fits(t, g) && n < |g.entries|
    ensures var t', j := Extend(t, g), |t.t2| + n;
      && Closed(t') && t'.t2[j].key == g.entries[n].key && Begin2(t', j) <= t'.t2[j].count <= |t'.t3|
      && t'.t3[Begin2(t', j)..t'.t2[j].count] == g.entries[n].lows
  {
    EntriesPlaced(t.t2, t.t3, g.entries, n);
  }

  lemma ExtendClosed(t: Tables, g: Group)
    requires Closed(t) && Fits(t, g)
    ensures Closed(Extend(t, g))
  {
    if g.entries != [] {
      NewSlice2(t, g, 0);
    }
  }

  lemma ExtendCounts(t: Tables, g: Group)
    requires CountsRun(t) && Closed(t) && Fits(t, g)
    ensures CountsRun(Extend(t, g))
  {
    var t' := Extend(t, g);
    forall j | 0 <= j < |t'.t2|
      ensures Begin2(t', j) <= t'.t2[j].count <= |t'.t3|
    {
      if j < |t.t2| {
        assert Begin2(t', j) == Begin2(t, j) && t'.t2[j] == t.t2[j];
      } else {
        NewSlice2(t, g, j - |t.t2|);
      }
    }
  }

  lemma ExtendKeys(t: Tables, g: Group, i: nat, j: nat, k: nat)
    requires WellFormed(t) && Closed(t) && Fits(t, g) && Sorted(g)
    requires InSlice1(Extend(t, g), i, j) && InSlice1(Extend(t, g), i, k) && j < k < |Extend(t, g).t2|
    ensures Extend(t, g).t2[j].key < Extend(t, g).t2[k].key
  {
    OldSlices(t, g, i, j, 0);
    OldSlices(t, g, i, k, 0);
    if i == |t.t1| {
      NewSlice1(t, g, j);
      NewSlice1(t, g, k);
      var m, n := j - |t.t2|, k - |t.t2|;
      NewSlice2(t, g, m);
      NewSlice2(t, g, n);
      assert g.entries[m].key < g.entries[n].key;
    }
  }

  lemma ExtendLows(t: Tables, g: Group, j: nat, k: nat, l: nat)
    requires WellFormed(t) && Closed(t) && Fits(t, g) && Sorted(g)
    requires InSlice2(Extend(t, g), j, k) && InSlice2(Extend(t, g), j, l) && k < l < |Extend(t, g).t3|
    ensures Extend(t, g).t3[k] <= Extend(t, g).t3[l]
  {
    if j < |t.t2| {
      OldSlices(t, g, 0, j, k);
      OldSlices(t, g, 0, j, l);
    } else {
      NewLows(t, g, j - |t.t2|, j, k, l);
    }
  }

  lemma NewLows(t: Tables, g: Group, n: nat, j: nat, k: nat, l: nat)
    requires Closed(t) && Fits(t, g) && Sorted(g) && n < |g.entries| && j == |t.t2| + n
    requires InSlice2(Extend(t, g), j, k) && InSlice2(Extend(t, g), j, l) && k < l < |Extend(t, g).t3|
    ensures Extend(t, g).t3[k] <= Extend(t, g).t3[l]
  {
    var t' := Extend(t, g);
    NewSlice2(t, g, n);
    SliceRises(t'.t3, Begin2(t', j), t'.t2[j].count, k, l);
  }

  lemma SliceRises(t3: seq<u16>, begin: nat, end: nat, k: nat, l: nat)
    requires begin <= k < l < end <= |t3| && Ascending(t3[begin..end])
    ensures t3[k] < t3[l]
  {
    var lows := t3[begin..end];
    assert lows[k - begin] < lows[l - begin];
  }

  lemma ExtendWellFormed(t: Tables, g: Group)
    requires WellFormed(t) && Closed(t) && Fits(t, g) && Sorted(g)
    ensures WellFormed(Extend(t, g)) && Closed(Extend(t, g))
  {
    var t' := Extend(t, g);
    ExtendClosed(t, g);
    ExtendCounts(t, g);
    forall i: nat, j: nat, k: nat | InSlice1(t', i, j) && InSlice1(t', i, k) && j < k
      ensures t'.t2[j].key < t'.t2[k].key
    {
      ExtendKeys(t, g, i, j, k);
    }
    forall j: nat, k: nat, l: nat | InSlice2(t', j, k) && InSlice2(t', j, l) && k < l
      ensures t'.t3[k] <= t'.t3[l]
    {
      ExtendLows(t, g, j, k, l);
    }
  }

  // ----- what the extended tables stand for

  lemma OldPaths(t: Tables, g: Group, a: u32, i: nat, j: nat, k: nat)
    requires CountsRun(t) && Fits(t, g) && i < |t.t1|
    ensures Path(Extend(t, g), a, i, j, k) <==> Path(t, a, i, j, k)
  {
    OldSlices(t, g, i, j, k);
  }

  /** A path through the new entry of table 1 leads to one of the group's registers. */
  lemma NewPathInGroup(t: Tables, g: Group, a: u32, j: nat, k: nat)
    requires Closed(t) && Fits(t, g)
    requires Path(Extend(t, g), a, |t.t1|, j, k)
    ensures GroupHas(g, a)
  {
    var t' := Extend(t, g);
    NewSlice1(t, g, j);
    var n := j - |t.t2|;
    NewSlice2(t, g, n);
    var lows := t'.t3[Begin2(t', j)..t'.t2[j].count];
    assert lows[k - Begin2(t', j)] == Low(a);
    assert EntryHas(g.entries[n], a);
  }

  /** Every register of the group has such a path. */
  lemma GroupHasPath(t: Tables, g: Group, a: u32, n: nat, m: nat)
    requires Closed(t) && Fits(t, g)
    requires InRange(g.range, Chiplet(a)) && n < |g.entries| && g.entries[n].key == Middle(a)
    requires m < |g.entries[n].lows| && g.entries[n].lows[m] == Low(a)
    ensures var t', j := Extend(t, g), |t.t2| + n; Path(t', a, |t.t1|, j, Begin2(t', j) + m)
  {
    var t', j := Extend(t, g), |t.t2| + n;
    NewSlice1(t, g, j);
    NewSlice2(t, g, n);
    var lows := t'.t3[Begin2(t', j)..t'.t2[j].count];
    assert lows[m] == Low(a);
  }

  lemma ExtendDenotesOnly(t: Tables, g: Group, a: u32)
    requires CountsRun(t) && Closed(t) && Fits(t, g) && Denotes(Extend(t, g), a)
    ensures Denotes(t, a) || GroupHas(g, a)
  {
    var i: nat, j: nat, k: nat :| Path(Extend(t, g), a, i, j, k);
    if i < |t.t1| {
      OldPaths(t, g, a, i, j, k);
    } else {
      NewPathInGroup(t, g, a, j, k);
    }
  }

  lemma ExtendDenotesAll(t: Tables, g: Group, a: u32)
    requires CountsRun(t) && Closed(t) && Fits(t, g) && (Denotes(t, a) || GroupHas(g, a))
    ensures Denotes(Extend(t, g), a)
  {
    if Denotes(t, a) {
      var i: nat, j: nat, k: nat :| Path(t, a, i, j, k);
      OldPaths(t, g, a, i, j, k);
    } else {
      var n :| 0 <= n < |g.entries| && EntryHas(g.entries[n], a);
      var m :| 0 <= m < |g.entries[n].lows| && g.entries[n].lows[m] == Low(a);
      GroupHasPath(t, g, a, n, m);
    }
  }

  /** The extended tables stand for what they stood for and the group's registers. */
  lemma ExtendDenotes(t: Tables, g: Group, a: u32)
    requires CountsRun(t) && Closed(t) && Fits(t, g)
    ensures Denotes(Extend(t, g), a) <==> Denotes(t, a) || GroupHas(g, a)
  {
    if Denotes(Extend(t, g), a) {
      ExtendDenotesOnly(t, g, a);
    }
    if Denotes(t, a) || GroupHas(g, a) {
      ExtendDenotesAll(t, g, a);
    }
  }

  // ----- the build

  ghost predicate InSome(groups: seq<Group>, a: u32) {
    exists i :: 0 <= i < |groups| && GroupHas(groups[i], a)
  }

  /** `Overflow` stands for a running count too large for its field. */
  datatype Generated = Overflow | Generated(tables: Tables)

  method AppendEntries(t2: seq<T2>, t3: seq<u16>, entries: seq<Entry>) returns (u2: seq<T2>, u3: seq<u16>)
    requires |t3| + Lows(entries) < 0x1_0000
    ensures (u2, u3) == AddEntries(t2, t3, entries)
  {
    u2, u3 := t2, t3;
    var count := |t3|;
    for i := 0 to |entries|
      invariant |t3| + Lows(entries[..i]) < 0x1_0000 && count == |u3|
      invariant (u2, u3) == AddEntries(t2, t3, entries[..i])
    {
      assert entries[..i + 1][..i] == entries[..i];
      LowsMonotone(entries, i + 1);
      count := count + |entries[i].lows|;
      u2 := u2 + [T2(entries[i].key, count)];
      u3 := u3 + entries[i].lows;
    }
    assert entries[..|entries|] == entries;
  }

  lemma {:induction false} LowsMonotone(entries: seq<Entry>, i: nat)
    requires i <= |entries|
    ensures Lows(entries[..i]) <= Lows(entries)
    decreases |entries|
  {
    if i == |entries| {
      assert entries[..i] == entries;
    } else {
      LowsMonotone(entries[..|entries| - 1], i);
      assert entries[..|entries| - 1][..i] == entries[..i];
    }
  }

  /** The tables of a sequence of groups. */
  ghost predicate Built(t: Tables, groups: seq<Group>) {
    && |t.t1| == |groups| && |t.t2| == Size2(groups) && |t.t3| == Size3(groups)
    && WellFormed(t) && Closed(t) && forall a :: Denotes(t, a) <==> InSome(groups, a)
  }

  lemma BuiltStep(t: Tables, groups: seq<Group>, i: nat)
    requires i < |groups| && Built(t, groups[..i]) && Fits(t, groups[i]) && Sorted(groups[i])
    ensures Built(Extend(t, groups[i]), groups[..i + 1])
  {
    ExtendWellFormed(t, groups[i]);
    AddsGroup(t, groups, i);
    SizesStep(groups, i);
  }

  lemma SizesStep(groups: seq<Group>, i: nat)
    requires i < |groups|
    ensures Size2(groups[..i + 1]) == Size2(groups[..i]) + |groups[i].entries|
    ensures Size3(groups[..i + 1]) == Size3(groups[..i]) + Lows(groups[i].entries)
  {
    assert groups[..i + 1][..i] == groups[..i];
  }

  /** A group that does not fit makes the whole too large. */
  lemma DoesNotFit(t: Tables, groups: seq<Group>, i: nat)
    requires i < |groups| && Built(t, groups[..i]) && !Fits(t, groups[i])
    ensures !(Size2(groups) < 0x100 && Size3(groups) < 0x1_0000)
  {
    SizesStep(groups, i);
    SizesRise(groups, i + 1);
  }

  method AppendGroup(t: Tables, g: Group) returns (t': Tables)
    requires Fits(t, g)
    ensures t' == Extend(t, g)
  {
    var t1 := t.t1 + [T1(g.range.lo, g.range.hi, |t.t2| + |g.entries|)];
    var t2, t3 := AppendEntries(t.t2, t.t3, g.entries);
    t' := Tables(t1, t2, t3);
  }

  /** Step 4: the tables stand for exactly the registers of the groups. */
  method BuildTables(groups: seq<Group>) returns (r: Generated)
    requires forall i :: 0 <= i < |groups| ==> Sorted(groups[i])
    ensures r.Generated? <==> Size2(groups) < 0x100 && Size3(groups) < 0x1_0000
    ensures r.Generated? ==> Built(r.tables, groups)
  {
    var t := Tables([], [], []);
    NothingBuilt(t);
    assert groups[..0] == [];
    for i := 0 to |groups|
      invariant Built(t, groups[..i])
      invariant i > 0 ==> |t.t2| < 0x100 && |t.t3| < 0x1_0000
    {
      if !Fits(t, groups[i]) {
        DoesNotFit(t, groups, i);
        return Overflow;
      }
      BuiltStep(t, groups, i);
      t := AppendGroup(t, groups[i]);
    }
    assert groups[..|groups|] == groups;
    return Generated(t);
  }

  lemma NothingBuilt(t: Tables)
    requires t == Tables([], [], [])
    ensures Built(t, [])
  {
  }

  function Size2(groups: seq<Group>): nat {
    if groups == [] then 0 else Size2(groups[..|groups| - 1]) + |groups[|groups| - 1].entries|
  }

  function Size3(groups: seq<Group>): nat {
    if groups == [] then 0 else Size3(groups[..|groups| - 1]) + Lows(groups[|groups| - 1].entries)
  }

  lemma {:induction false} SizesRise(groups: seq<Group>, i: nat)
    requires i <= |groups|
    ensures Size2(groups[..i]) <= Size2(groups) && Size3(groups[..i]) <= Size3(groups)
    decreases |groups|
  {
    if i == |groups| {
      assert groups[..i] == groups;
    } else {
      SizesRise(groups[..|groups| - 1], i);
      assert groups[..|groups| - 1][..i] == groups[..i];
    }
  }

  lemma AddsGroup(t: Tables, groups: seq<Group>, i: nat)
    requires i < |groups| && CountsRun(t) && Closed(t) && Fits(t, groups[i])
    requires forall a :: Denotes(t, a) <==> InSome(groups[..i], a)
    ensures forall a :: Denotes(Extend(t, groups[i]), a) <==> InSome(groups[..i + 1], a)
  {
    forall a: u32
      ensures Denotes(Extend(t, groups[i]), a) <==> InSome(groups[..i + 1], a)
    {
      ExtendDenotes(t, groups[i], a);
      InSomeStep(groups, i, a);
    }
  }

  lemma InSomeStep(groups: seq<Group>, i: nat, a: u32)
    requires i < |groups|
    ensures InSome(groups[..i + 1], a) <==> InSome(groups[..i], a) || GroupHas(groups[i], a)
  {
    assert forall k :: 0 <= k < i ==> groups[..i + 1][k] == groups[..i][k];
    assert groups[..i + 1][i] == groups[i];
    if InSome(groups[..i], a) {
      var k :| 0 <= k < i && GroupHas(groups[..i][k], a);
      assert GroupHas(groups[..i + 1][k], a);
    }
    if GroupHas(groups[i], a) {
      assert GroupHas(groups[..i + 1][i], a);
    }
  }

  predicate Below(q: seq<int>, bound: nat) { forall i :: 0 <= i < |q| ==> 0 <= q[i] < bound }

  method InsertSorted(q: seq<int>, x: int, bound: nat) returns (r: seq<int>)
    requires Ascending(q) && x !in q && Below(q, bound) && 0 <= x < bound
    ensures Below(r, bound) && Ascending(r) && forall y :: y in r <==> y in q || y == x
  {
    var k := 0;
    while k < |q| && q[k] < x
      invariant 0 <= k <= |q| && forall i :: 0 <= i < k ==> q[i] < x
    {
      k := k + 1;
    }
    r := q[..k] + [x] + q[k..];
  }

  method Some<T>(s: set<T>) returns (x: T)
    requires s != {}
    ensures x in s
  {
    x :| x in s;
  }

  /** Removing duplicates and sorting. */
  method SortSet(s: set<int>, bound: nat) returns (q: seq<int>)
    requires forall x :: x in s ==> 0 <= x < bound
    ensures Below(q, bound) && Ascending(q) && forall x :: x in q <==> x in s
  {
    q := [];
    var left := s;
    while left != {}
      invariant left <= s && Below(q, bound) && Ascending(q) && forall x :: x in q <==> x in s && x !in left
      decreases left
    {
      var x := Some(left);
      q := InsertSorted(q, x, bound);
      left := left - {x};
    }
  }

  // ----- step 1

  ghost predicate InRanges(rs: seq<Range>, c: int) {
    exists i :: 0 <= i < |rs| && InRange(rs[i], c)
  }

  ghost predicate Cover(done: seq<Range>, last: Range, cs: seq<int>) {
    forall c :: InRanges(done, c) || InRange(last, c) <==> c in cs
  }

  lemma RangesStep(rs: seq<Range>, r: Range)
    ensures forall c :: InRanges(rs + [r], c) <==> InRanges(rs, c) || InRange(r, c)
  {
    forall c
      ensures InRanges(rs + [r], c) <==> InRanges(rs, c) || InRange(r, c)
    {
      if InRanges(rs, c) {
        var i :| 0 <= i < |rs| && InRange(rs[i], c);
        assert InRange((rs + [r])[i], c);
      }
      if InRange(r, c) {
        assert InRange((rs + [r])[|rs|], c);
      }
    }
  }

  /** The ranges of a base are not empty, rise, and leave a gap between neighbours. */
  ghost predicate Apart(rs: seq<Range>) {
    && (forall i :: 0 <= i < |rs| ==> rs[i].lo <= rs[i].hi)
    && forall i, j :: 0 <= i < j < |rs| ==> rs[i].hi + 1 < rs[j].lo
  }

  lemma Widen(done: seq<Range>, last: Range, cs: seq<int>, c: u8)
    requires Cover(done, last, cs) && c == last.hi + 1 && last.lo <= last.hi && Apart(done + [last])
    ensures Cover(done, Range(last.lo, c), cs + [c]) && Apart(done + [Range(last.lo, c)])
  {
    var was, now := done + [last], done + [Range(last.lo, c)];
    assert was[|done|] == last && now[|done|] == Range(last.lo, c);
    assert forall i :: 0 <= i < |done| ==> now[i] == was[i];
  }

  lemma OpenNew(done: seq<Range>, last: Range, cs: seq<int>, c: u8)
    requires Cover(done, last, cs) && last.lo <= last.hi && last.hi + 1 < c && Apart(done + [last])
    ensures Cover(done + [last], Range(c, c), cs + [c]) && Apart(done + [last] + [Range(c, c)])
  {
    RangesStep(done, last);
    var was, now := done + [last], done + [last] + [Range(c, c)];
    assert was[|done|] == last;
    assert forall i :: 0 <= i < |was| ==> now[i] == was[i];
    assert forall i :: 0 <= i < |was| ==> was[i].hi <= last.hi;
  }

  /** Consecutive chiplets widen the last range, others open a new one. The ranges hold
      exactly the chiplets, and each is a maximal run of them. */
  method ChipletRanges(cs: seq<u8>) returns (rs: seq<Range>)
    requires cs != [] && Ascending(cs)
    ensures Apart(rs) && forall c :: InRanges(rs, c) <==> c in cs
  {
    var done: seq<Range>, last := [], Range(cs[0], cs[0]);
    ghost var n := 1;
    for i := 0 to |cs|
      invariant n == (if i == 0 then 1 else i) <= |cs|
      invariant last.hi == cs[n - 1] && last.lo <= last.hi
      invariant Cover(done, last, cs[..n]) && Apart(done + [last])
    {
      if i > 0 {
        assert cs[..i + 1] == cs[..i] + [cs[i]] && cs[i - 1] < cs[i];
      }
      if cs[i] == last.hi + 1 {
        Widen(done, last, cs[..i], cs[i]);
        last := Range(last.lo, cs[i]);
      } else if cs[i] != last.hi {
        OpenNew(done, last, cs[..i], cs[i]);
        done := done + [last];
        last := Range(cs[i], cs[i]);
      }
      n := i + 1;
    }
    assert cs[..|cs|] == cs;
    RangesStep(done, last);
    rs := done + [last];
  }

  // ----- step 3

  lemma Split(a: u32)
    ensures a == 0x100_0000 * Chiplet(a) + Base(a)
    ensures Base(a) == 0x1_0000 * Middle(a) + Low(a)
  {
    var h := a / 0x1_0000;
    assert a == 0x1_0000 * h + Low(a);
    assert h == 0x100 * (h / 0x100) + Middle(a);
    assert h / 0x100 == Chiplet(a);
  }

  function Key(b: u24): u8 { b / 0x1_0000 }
  function Rest(b: u24): u16 { b % 0x1_0000 }

  lemma SplitBase(a: u32)
    ensures Key(Base(a)) == Middle(a) && Rest(Base(a)) == Low(a)
  {
    Split(a);
  }

  method SortBytes(s: set<u8>) returns (q: seq<u8>)
    ensures Ascending(q) && forall x :: x in q <==> x in s
  {
    q := SortSet(s, 0x100);
  }

  method SortHalves(s: set<u16>) returns (q: seq<u16>)
    ensures Ascending(q) && forall x :: x in q <==> x in s
  {
    q := SortSet(s, 0x1_0000);
  }

  /** An entry holds the low halves of the bases with its key. */
  ghost predicate EntryFor(e: Entry, key: int, bases: set<u24>) {
    && e.key == key && Ascending(e.lows)
    && forall x :: x in e.lows <==> exists b :: b in bases && Key(b) == key && Rest(b) == x
  }

  method EntryOf(key: u8, bases: set<u24>) returns (e: Entry)
    ensures EntryFor(e, key, bases)
  {
    var lows := SortHalves(set b | b in bases && Key(b) == key :: Rest(b));
    e := Entry(key, lows);
  }

  /** The registers of one range, grouped by their middle byte. */
  method GroupOf(range: Range, bases: set<u24>) returns (g: Group)
    ensures g.range == range && Sorted(g)
    ensures forall a :: GroupHas(g, a) <==> InRange(range, Chiplet(a)) && Base(a) in bases
  {
    var keys := SortBytes(set b | b in bases :: Key(b));
    var entries: seq<Entry> := [];
    for i := 0 to |keys|
      invariant |entries| == i
      invariant forall k :: 0 <= k < i ==> EntryFor(entries[k], keys[k], bases)
    {
      var e := EntryOf(keys[i], bases);
      entries := entries + [e];
    }
    g := Group(range, entries);
    EntriesHold(g, keys, bases);
    forall k | 0 <= k < |keys|
      ensures entries[k].lows != []
    {
      assert keys[k] in keys;
      ghost var b :| b in bases && Key(b) == keys[k];
      assert Rest(b) in entries[k].lows;
    }
  }

  lemma EntryHolds(e: Entry, bases: set<u24>, a: u32)
    requires EntryFor(e, e.key, bases)
    ensures EntryHas(e, a) <==> e.key == Middle(a) && Base(a) in bases
  {
    SplitBase(a);
    if EntryHas(e, a) {
      var b :| b in bases && Key(b) == e.key && Rest(b) == Low(a);
      Split(a);
      assert b == 0x1_0000 * Key(b) + Rest(b);
    }
  }

  lemma EntriesHold(g: Group, keys: seq<u8>, bases: set<u24>)
    requires |g.entries| == |keys| && forall k :: 0 <= k < |keys| ==> EntryFor(g.entries[k], keys[k], bases)
    requires forall x :: x in keys <==> exists b :: b in bases && Key(b) == x
    ensures forall a :: GroupHas(g, a) <==> InRange(g.range, Chiplet(a)) && Base(a) in bases
  {
    forall a: u32
      ensures GroupHas(g, a) <==> InRange(g.range, Chiplet(a)) && Base(a) in bases
    {
      forall k | 0 <= k < |keys|
        ensures EntryHas(g.entries[k], a) <==> keys[k] == Middle(a) && Base(a) in bases
      {
        EntryHolds(g.entries[k], bases, a);
      }
      SplitBase(a);
      if Base(a) in bases {
        assert Middle(a) in keys;
        var k :| 0 <= k < |keys| && keys[k] == Middle(a);
        assert InRange(g.range, Chiplet(a)) ==> EntryHas(g.entries[k], a);
      }
    }
  }

  // ----- all steps

  ghost predicate RangesOf(list: set<u32>, b: u24, rs: seq<Range>) {
    Apart(rs) && forall a: u32 :: Base(a) == b ==> (InRanges(rs, Chiplet(a)) <==> a in list)
  }

  /** Step 1 for one base address. */
  method BaseRanges(list: set<u32>, b: u24) returns (rs: seq<Range>)
    requires exists a :: a in list && Base(a) == b
    ensures RangesOf(list, b, rs)
  {
    var chiplets := set a | a in list && Base(a) == b :: Chiplet(a);
    var cs := SortBytes(chiplets);
    ghost var one :| one in list && Base(one) == b;
    assert Chiplet(one) in chiplets;
    rs := ChipletRanges(cs);
    forall a: u32 | Base(a) == b
      ensures Chiplet(a) in cs <==> a in list
    {
      if Chiplet(a) in cs {
        ghost var a' :| a' in list && Base(a') == b && Chiplet(a') == Chiplet(a);
        Split(a);
        Split(a');
      }
    }
  }

  method AllRanges(list: set<u32>) returns (ranges: map<u24, seq<Range>>)
    ensures forall b :: b in ranges <==> exists a :: a in list && Base(a) == b
    ensures forall b :: b in ranges ==> RangesOf(list, b, ranges[b])
  {
    ranges := map[];
    var bases := set a | a in list :: Base(a);
    var left := bases;
    while left != {}
      invariant left <= bases && ranges.Keys == bases - left
      invariant forall b :: b in ranges ==> RangesOf(list, b, ranges[b])
      decreases left
    {
      var b := Some(left);
      var rs := BaseRanges(list, b);
      ranges := ranges[b := rs];
      left := left - {b};
    }
  }

  /** Step 2: the ranges of any base, once each. */
  method UniqueRanges(ranges: map<u24, seq<Range>>) returns (rs: seq<Range>)
    ensures Distinct(rs)
    ensures forall r :: r in rs <==> exists b :: b in ranges && r in ranges[b]
  {
    rs := [];
    var left := ranges.Keys;
    while left != {}
      invariant left <= ranges.Keys && Distinct(rs)
      invariant forall r :: r in rs <==> exists b :: b in ranges && b !in left && r in ranges[b]
      decreases left
    {
      var b := Some(left);
      rs := AddUnique(rs, ranges[b]);
      left := left - {b};
    }
  }

  method AddUnique(rs: seq<Range>, more: seq<Range>) returns (all: seq<Range>)
    requires Distinct(rs)
    ensures Distinct(all)
    ensures forall r :: r in all <==> r in rs || r in more
  {
    all := rs;
    for i := 0 to |more|
      invariant Distinct(all) && forall r :: r in all <==> r in rs || r in more[..i]
    {
      if more[i] !in all {
        all := all + [more[i]];
      }
    }
  }

  function BasesOf(ranges: map<u24, seq<Range>>, r: Range): set<u24> {
    set b | b in ranges && r in ranges[b]
  }

  ghost predicate GroupFor(g: Group, r: Range, bases: set<u24>) {
    g.range == r && Sorted(g) && forall a :: GroupHas(g, a) <==> InRange(r, Chiplet(a)) && Base(a) in bases
  }

  /** What steps 1 to 3 make of a list. */
  ghost predicate Grouped(list: set<u32>, ranges: map<u24, seq<Range>>, rs: seq<Range>, groups: seq<Group>) {
    && (forall b :: b in ranges <==> exists a :: a in list && Base(a) == b)
    && (forall b :: b in ranges ==> RangesOf(list, b, ranges[b]))
    && Distinct(rs) && (forall r :: r in rs <==> exists b :: b in ranges && r in ranges[b])
    && |groups| == |rs| && forall k :: 0 <= k < |rs| ==> GroupFor(groups[k], rs[k], BasesOf(ranges, rs[k]))
  }

  /** The groups of all ranges hold exactly the registers of the list. */
  lemma GroupsHoldList(list: set<u32>, ranges: map<u24, seq<Range>>, rs: seq<Range>, groups: seq<Group>)
    requires Grouped(list, ranges, rs, groups)
    ensures forall a :: InSome(groups, a) <==> a in list
  {
    forall a: u32
      ensures InSome(groups, a) <==> a in list
    {
      if InSome(groups, a) {
        var k :| 0 <= k < |groups| && GroupHas(groups[k], a);
        assert Base(a) in BasesOf(ranges, rs[k]);
        assert InRanges(ranges[Base(a)], Chiplet(a));
      }
      if a in list {
        assert Base(a) in ranges && InRanges(ranges[Base(a)], Chiplet(a));
        var i :| 0 <= i < |ranges[Base(a)]| && InRange(ranges[Base(a)][i], Chiplet(a));
        var k := RangeHasGroup(list, ranges, rs, groups, a, ranges[Base(a)][i]);
      }
    }
  }

  /** Each range of a base has a group that holds the base's registers in the range. */
  lemma RangeHasGroup(list: set<u32>, ranges: map<u24, seq<Range>>, rs: seq<Range>, groups: seq<Group>, a: u32, r: Range)
      returns (k: nat)
    requires Grouped(list, ranges, rs, groups)
    requires Base(a) in ranges && r in ranges[Base(a)] && InRange(r, Chiplet(a))
    ensures k < |groups| && groups[k].range == r && GroupHas(groups[k], a)
  {
    assert r in rs;
    k :| 0 <= k < |rs| && rs[k] == r;
    assert GroupFor(groups[k], r, BasesOf(ranges, r));
  }

  /** Steps 1 to 3. */
  method GroupAll(list: set<u32>) returns (ranges: map<u24, seq<Range>>, rs: seq<Range>, groups: seq<Group>)
    ensures Grouped(list, ranges, rs, groups)
  {
    ranges := AllRanges(list);
    rs := UniqueRanges(ranges);
    groups := [];
    for i := 0 to |rs|
      invariant |groups| == i && forall k :: 0 <= k < i ==> GroupFor(groups[k], rs[k], BasesOf(ranges, rs[k]))
    {
      var g := GroupOf(rs[i], BasesOf(ranges, rs[i]));
      groups := groups + [g];
    }
  }
}
