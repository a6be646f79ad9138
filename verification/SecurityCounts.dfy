/** How large the generated tables get, and with it when they fit the fields of their
    running counts. */
module SecurityCounts {
  import opened Bytes
  import opened SecurityTables
  import opened SecurityGen

  const CHIPLET: nat := 0x100_0000

  // ----- the maximal runs of a list

  /** The first register of every maximal run of chiplets with the same base. */
  function Heads(list: set<u32>): set<u32> {
    set a | a in list && (Chiplet(a) == 0 || a - CHIPLET !in list)
  }

  /** The last chiplet of the run that starts at a register. */
  function RunEnd(list: set<u32>, a: u32): u8
    decreases POW2_32 - a
  {
    if Chiplet(a) < 0xFF && a + CHIPLET in list then RunEnd(list, a + CHIPLET) else Chiplet(a)
  }

  /** The runs with the middle bytes that occur in them. */
  function RunKeys(list: set<u32>): set<(Range, u8)> {
    set a | a in Heads(list) :: (Range(Chiplet(a), RunEnd(list, a)), Middle(a))
  }

  function Register(c: u8, b: u24): u32 { CHIPLET * c + b }

  lemma RegisterParts(c: u8, b: u24)
    ensures Chiplet(Register(c, b)) == c && Base(Register(c, b)) == b
  {
  }

  lemma RegisterOf(a: u32)
    ensures a == Register(Chiplet(a), Base(a))
    ensures Chiplet(a) > 0 ==> a - CHIPLET == Register(Chiplet(a) - 1, Base(a))
  {
    Split(a);
  }

  ghost predicate Has(list: set<u32>, b: u24, c: int) { 0 <= c < 0x100 && Register(c, b) in list }

  lemma {:induction false} RunEndIs(list: set<u32>, b: u24, c: u8, hi: u8)
    requires c <= hi && (forall d :: c <= d <= hi ==> Has(list, b, d)) && !Has(list, b, hi + 1)
    ensures RunEnd(list, Register(c, b)) == hi
    decreases hi - c
  {
    RegisterParts(c, b);
    if c < hi {
      assert Has(list, b, c + 1);
      RunEndIs(list, b, c + 1, hi);
    }
  }

  /** What the ranges of a base say in terms of its registers. */
  lemma RangesAreRuns(list: set<u32>, b: u24, rs: seq<Range>, c: int)
    requires RangesOf(list, b, rs)
    ensures 0 <= c < 0x100 ==> (InRanges(rs, c) <==> Has(list, b, c))
  {
    if 0 <= c < 0x100 {
      RegisterParts(c, b);
      assert Base(Register(c, b)) == b;
    }
  }

  /** Next to a range lie no chiplets of the base. */
  lemma RangeEnds(rs: seq<Range>, i: nat)
    requires Apart(rs) && i < |rs|
    ensures !InRanges(rs, rs[i].lo - 1) && !InRanges(rs, rs[i].hi + 1)
  {
    forall j | 0 <= j < |rs|
      ensures !InRange(rs[j], rs[i].lo - 1) && !InRange(rs[j], rs[i].hi + 1)
    {
    }
  }

  /** Every range of a base starts at a head and ends where the run of the head ends. */
  lemma RangeIsRun(list: set<u32>, a: u32, rs: seq<Range>, i: nat)
    requires RangesOf(list, Base(a), rs) && i < |rs| && rs[i].lo == Chiplet(a)
    ensures a in Heads(list) && RunEnd(list, a) == rs[i].hi
  {
    var b, r := Base(a), rs[i];
    RangeEnds(rs, i);
    forall d | r.lo <= d <= r.hi
      ensures Has(list, b, d)
    {
      assert InRange(rs[i], d);
      RangesAreRuns(list, b, rs, d);
    }
    RangesAreRuns(list, b, rs, r.hi + 1);
    RangesAreRuns(list, b, rs, r.lo - 1);
    RegisterOf(a);
    assert Has(list, b, r.lo);
    RunEndIs(list, b, r.lo, r.hi);
  }

  /** Every head starts a range of its base. */
  lemma HeadHasRange(list: set<u32>, a: u32, rs: seq<Range>) returns (i: nat)
    requires RangesOf(list, Base(a), rs) && a in Heads(list)
    ensures i < |rs| && rs[i].lo == Chiplet(a)
  {
    RegisterOf(a);
    RangesAreRuns(list, Base(a), rs, Chiplet(a));
    i :| 0 <= i < |rs| && InRange(rs[i], Chiplet(a));
    if rs[i].lo < Chiplet(a) {
      assert InRange(rs[i], Chiplet(a) - 1);
      RangesAreRuns(list, Base(a), rs, Chiplet(a) - 1);
    }
  }

  /** The registers at the low ends of the groups are the heads of the list. */
  lemma LowsAreHeads(list: set<u32>, ranges: map<u24, seq<Range>>, rs: seq<Range>, groups: seq<Group>, a: u32)
    requires Grouped(list, ranges, rs, groups)
    ensures AtLow(groups, a) <==> a in Heads(list)
  {
    if AtLow(groups, a) {
      var k :| 0 <= k < |groups| && groups[k].range.lo == Chiplet(a) && GroupHas(groups[k], a);
      LowIsHead(list, ranges, rs, groups, a, k);
    }
    if a in Heads(list) {
      var k := HeadHasGroup(list, ranges, rs, groups, a);
    }
  }

  lemma LowIsHead(list: set<u32>, ranges: map<u24, seq<Range>>, rs: seq<Range>, groups: seq<Group>, a: u32, k: nat)
    requires Grouped(list, ranges, rs, groups)
    requires k < |groups| && groups[k].range.lo == Chiplet(a) && GroupHas(groups[k], a)
    ensures a in Heads(list) && groups[k].range == Range(Chiplet(a), RunEnd(list, a))
  {
    assert GroupFor(groups[k], rs[k], BasesOf(ranges, rs[k]));
    assert Base(a) in BasesOf(ranges, rs[k]);
    var own := ranges[Base(a)];
    var i :| 0 <= i < |own| && own[i] == rs[k];
    RangeIsRun(list, a, own, i);
  }

  lemma HeadHasGroup(list: set<u32>, ranges: map<u24, seq<Range>>, rs: seq<Range>, groups: seq<Group>, a: u32)
      returns (k: nat)
    requires Grouped(list, ranges, rs, groups) && a in Heads(list)
    ensures k < |groups| && groups[k].range == Range(Chiplet(a), RunEnd(list, a)) && GroupHas(groups[k], a)
  {
    assert Base(a) in ranges;
    var own := ranges[Base(a)];
    var i := HeadHasRange(list, a, own);
    RangeIsRun(list, a, own, i);
    assert Apart(own) && own[i] in own;
    k := RangeHasGroup(list, ranges, rs, groups, a, own[i]);
  }

  // ----- counting

  lemma DistinctJoin<T>(s: seq<T>, t: seq<T>)
    requires Distinct(s) && Distinct(t) && forall x :: x in s ==> x !in t
    ensures Distinct(s + t)
  {
    forall i, j | 0 <= i < j < |s + t|
      ensures (s + t)[i] != (s + t)[j]
    {
      if i < |s| <= j {
        assert s[i] in s && t[j - |s|] in t;
      }
    }
  }

  lemma {:induction false} DistinctSize<T>(s: seq<T>, all: set<T>)
    requires Distinct(s) && forall x :: x in s <==> x in all
    ensures |s| == |all|
  {
    if s == [] {
      assert all == {};
    } else {
      var n := |s| - 1;
      var last := s[n];
      assert last in all;
      forall x
        ensures x in s[..n] <==> x in all - {last}
      {
        if x in s[..n] {
          var i :| 0 <= i < n && s[i] == x;
        }
        if x in all && x != last {
          var i :| 0 <= i < |s| && s[i] == x;
          assert s[..n][i] == x;
        }
      }
      DistinctSize(s[..n], all - {last});
    }
  }

  function Address(c: u8, key: u8, low: u16): u32 { CHIPLET * c + 0x1_0000 * key + low }

  lemma AddressParts(c: u8, key: u8, low: u16)
    ensures var a := Address(c, key, low); Chiplet(a) == c && Middle(a) == key && Low(a) == low
  {
    Split(Address(c, key, low));
  }

  lemma AddressOf(a: u32)
    ensures a == Address(Chiplet(a), Middle(a), Low(a))
  {
    Split(a);
  }

  /** For each row of table 3 the listed register at the low end of its range. */
  function EntryRows(c: u8, e: Entry): seq<u32> {
    seq(|e.lows|, i requires 0 <= i < |e.lows| => Address(c, e.key, e.lows[i]))
  }

  function GroupRows(c: u8, es: seq<Entry>): seq<u32> {
    if es == [] then [] else GroupRows(c, es[..|es| - 1]) + EntryRows(c, es[|es| - 1])
  }

  function Rows(groups: seq<Group>): seq<u32> {
    if groups == [] then []
    else var g := groups[|groups| - 1]; Rows(groups[..|groups| - 1]) + GroupRows(g.range.lo, g.entries)
  }

  lemma EntryRowsHold(c: u8, e: Entry)
    requires Ascending(e.lows)
    ensures Distinct(EntryRows(c, e))
    ensures forall x :: x in EntryRows(c, e) <==> Chiplet(x) == c && EntryHas(e, x)
  {
    var rows := EntryRows(c, e);
    forall i | 0 <= i < |e.lows|
      ensures var x := rows[i]; Chiplet(x) == c && Middle(x) == e.key && Low(x) == e.lows[i]
    {
      AddressParts(c, e.key, e.lows[i]);
    }
    forall x: u32 | Chiplet(x) == c && EntryHas(e, x)
      ensures x in rows
    {
      AddressOf(x);
      var i :| 0 <= i < |e.lows| && e.lows[i] == Low(x);
      assert rows[i] == x;
    }
  }

  ghost predicate SomeHas(es: seq<Entry>, x: u32) { exists i :: 0 <= i < |es| && EntryHas(es[i], x) }

  lemma SomeStep(es: seq<Entry>, x: u32)
    requires es != []
    ensures SomeHas(es, x) <==> SomeHas(es[..|es| - 1], x) || EntryHas(es[|es| - 1], x)
  {
    var front := es[..|es| - 1];
    if SomeHas(front, x) {
      var i :| 0 <= i < |front| && EntryHas(front[i], x);
      assert EntryHas(es[i], x);
    }
    if SomeHas(es, x) && !EntryHas(es[|es| - 1], x) {
      var i :| 0 <= i < |es| && EntryHas(es[i], x);
      assert EntryHas(front[i], x);
    }
  }

  lemma {:induction false} GroupRowsHold(c: u8, es: seq<Entry>)
    requires SortedEntries(es)
    ensures |GroupRows(c, es)| == Lows(es) && Distinct(GroupRows(c, es))
    ensures forall x :: x in GroupRows(c, es) <==> Chiplet(x) == c && SomeHas(es, x)
  {
    if es != [] {
      var n := |es| - 1;
      GroupRowsHold(c, es[..n]);
      EntryRowsHold(c, es[n]);
      forall x
        ensures SomeHas(es, x) <==> SomeHas(es[..n], x) || EntryHas(es[n], x)
        ensures !(SomeHas(es[..n], x) && EntryHas(es[n], x))
      {
        SomeStep(es, x);
        KeysDiffer(es, x);
      }
      DistinctJoin(GroupRows(c, es[..n]), EntryRows(c, es[n]));
    }
  }

  lemma KeysDiffer(es: seq<Entry>, x: u32)
    requires SortedEntries(es) && es != []
    ensures !(SomeHas(es[..|es| - 1], x) && EntryHas(es[|es| - 1], x))
  {
    var n := |es| - 1;
    if SomeHas(es[..n], x) {
      var i :| 0 <= i < n && EntryHas(es[..n][i], x);
      assert es[i].key < es[n].key;
    }
  }

  /** Groups that meet in a base start at different chiplets. */
  ghost predicate GroupsApart(groups: seq<Group>) {
    && (forall i :: 0 <= i < |groups| ==> Sorted(groups[i]) && groups[i].range.lo <= groups[i].range.hi)
    && (forall i, j :: 0 <= i < j < |groups| ==> groups[i].range != groups[j].range)
    && forall i, j, a: u32 :: 0 <= i < j < |groups| && GroupHas(groups[i], a) && GroupHas(groups[j], a) ==>
        !(groups[i].range.lo == groups[j].range.lo == Chiplet(a))
  }

  ghost predicate AtLow(groups: seq<Group>, x: u32) {
    exists i :: 0 <= i < |groups| && groups[i].range.lo == Chiplet(x) && GroupHas(groups[i], x)
  }

  lemma AtLowStep(groups: seq<Group>, x: u32)
    requires groups != []
    ensures var n := |groups| - 1;
      AtLow(groups, x) <==> AtLow(groups[..n], x) || (groups[n].range.lo == Chiplet(x) && GroupHas(groups[n], x))
  {
    var n := |groups| - 1;
    var front := groups[..n];
    if AtLow(front, x) {
      var i :| 0 <= i < n && front[i].range.lo == Chiplet(x) && GroupHas(front[i], x);
      assert GroupHas(groups[i], x);
    }
    if AtLow(groups, x) && !(groups[n].range.lo == Chiplet(x) && GroupHas(groups[n], x)) {
      var i :| 0 <= i < |groups| && groups[i].range.lo == Chiplet(x) && GroupHas(groups[i], x);
      assert GroupHas(front[i], x);
    }
  }

  lemma LowsDiffer(groups: seq<Group>, x: u32)
    requires GroupsApart(groups) && groups != []
    ensures var n := |groups| - 1;
      !(AtLow(groups[..n], x) && groups[n].range.lo == Chiplet(x) && GroupHas(groups[n], x))
  {
    var n := |groups| - 1;
    var front := groups[..n];
    if AtLow(front, x) {
      var i :| 0 <= i < n && front[i].range.lo == Chiplet(x) && GroupHas(front[i], x);
      assert GroupHas(groups[i], x);
    }
  }

  /** Table 3 has a row for each register at the low end of a group. */
  lemma {:induction false} RowsHold(groups: seq<Group>)
    requires GroupsApart(groups)
    ensures |Rows(groups)| == Size3(groups) && Distinct(Rows(groups))
    ensures forall x :: x in Rows(groups) <==> AtLow(groups, x)
  {
    if groups != [] {
      var n := |groups| - 1;
      var g, front := groups[n], groups[..n];
      assert GroupsApart(front);
      RowsHold(front);
      GroupRowsHold(g.range.lo, g.entries);
      forall x
        ensures x in GroupRows(g.range.lo, g.entries) <==> g.range.lo == Chiplet(x) && GroupHas(g, x)
        ensures AtLow(groups, x) <==> AtLow(front, x) || (g.range.lo == Chiplet(x) && GroupHas(g, x))
        ensures !(AtLow(front, x) && g.range.lo == Chiplet(x) && GroupHas(g, x))
      {
        AtLowStep(groups, x);
        LowsDiffer(groups, x);
      }
      DistinctJoin(Rows(front), GroupRows(g.range.lo, g.entries));
    }
  }

  // ----- table 2

  function GroupKeys(g: Group): seq<(Range, u8)> {
    seq(|g.entries|, i requires 0 <= i < |g.entries| => (g.range, g.entries[i].key))
  }

  /** The rows of table 2, each with the range it belongs to. */
  function Keys(groups: seq<Group>): seq<(Range, u8)> {
    if groups == [] then [] else Keys(groups[..|groups| - 1]) + GroupKeys(groups[|groups| - 1])
  }

  ghost predicate KeyAt(groups: seq<Group>, p: (Range, u8)) {
    exists i :: 0 <= i < |groups| && p in GroupKeys(groups[i])
  }

  lemma KeyAtStep(groups: seq<Group>, p: (Range, u8))
    requires groups != []
    ensures KeyAt(groups, p) <==> KeyAt(groups[..|groups| - 1], p) || p in GroupKeys(groups[|groups| - 1])
  {
    var n := |groups| - 1;
    var front := groups[..n];
    if KeyAt(front, p) {
      var i :| 0 <= i < n && p in GroupKeys(front[i]);
      assert p in GroupKeys(groups[i]);
    }
    if KeyAt(groups, p) && p !in GroupKeys(groups[n]) {
      var i :| 0 <= i < |groups| && p in GroupKeys(groups[i]);
      assert p in GroupKeys(front[i]);
    }
  }

  lemma {:induction false} KeysHold(groups: seq<Group>)
    requires GroupsApart(groups)
    ensures |Keys(groups)| == Size2(groups) && Distinct(Keys(groups))
    ensures forall p :: p in Keys(groups) <==> KeyAt(groups, p)
  {
    if groups != [] {
      var n := |groups| - 1;
      var g, front := groups[n], groups[..n];
      assert GroupsApart(front);
      KeysHold(front);
      forall p
        ensures KeyAt(groups, p) <==> KeyAt(front, p) || p in GroupKeys(g)
        ensures !(KeyAt(front, p) && p in GroupKeys(g))
      {
        KeyAtStep(groups, p);
        if KeyAt(front, p) {
          var i :| 0 <= i < n && p in GroupKeys(front[i]);
          assert groups[i].range != g.range;
        }
      }
      DistinctJoin(Keys(front), GroupKeys(g));
    }
  }

  lemma RangesMeet(list: set<u32>, ranges: map<u24, seq<Range>>, rs: seq<Range>, groups: seq<Group>)
    requires Grouped(list, ranges, rs, groups)
    ensures GroupsApart(groups)
  {
    forall i, j, a: u32 | 0 <= i < j < |groups| && GroupHas(groups[i], a) && GroupHas(groups[j], a)
      ensures groups[i].range.lo != groups[j].range.lo
    {
      var own := ranges[Base(a)];
      assert rs[i] in own && rs[j] in own && Apart(own);
    }
    forall i | 0 <= i < |groups|
      ensures groups[i].range.lo <= groups[i].range.hi
    {
      assert rs[i] in rs;
      var b :| b in ranges && rs[i] in ranges[b];
      assert Apart(ranges[b]);
    }
  }

  /** The rows of table 2 are the runs of the list with their middle bytes. */
  lemma KeysAreRuns(list: set<u32>, ranges: map<u24, seq<Range>>, rs: seq<Range>, groups: seq<Group>, p: (Range, u8))
    requires Grouped(list, ranges, rs, groups) && GroupsApart(groups)
    ensures KeyAt(groups, p) <==> p in RunKeys(list)
  {
    if KeyAt(groups, p) {
      var k :| 0 <= k < |groups| && p in GroupKeys(groups[k]);
      KeyIsRun(list, ranges, rs, groups, p, k);
    }
    if p in RunKeys(list) {
      var a :| a in Heads(list) && p == (Range(Chiplet(a), RunEnd(list, a)), Middle(a));
      var k := HeadHasGroup(list, ranges, rs, groups, a);
      var i :| 0 <= i < |groups[k].entries| && EntryHas(groups[k].entries[i], a);
      assert GroupKeys(groups[k])[i] == p;
    }
  }

  lemma KeyIsRun(list: set<u32>, ranges: map<u24, seq<Range>>, rs: seq<Range>, groups: seq<Group>, p: (Range, u8), k: nat)
    requires Grouped(list, ranges, rs, groups) && GroupsApart(groups) && k < |groups| && p in GroupKeys(groups[k])
    ensures p in RunKeys(list)
  {
    var g := groups[k];
    var i :| 0 <= i < |g.entries| && GroupKeys(g)[i] == p;
    var e := g.entries[i];
    var a := Address(g.range.lo, e.key, e.lows[0]);
    AddressParts(g.range.lo, e.key, e.lows[0]);
    assert EntryHas(e, a);
    assert GroupHas(g, a);
    LowIsHead(list, ranges, rs, groups, a, k);
  }

  // ----- the generator

  /** The running counts of both tables fit their fields. */
  predicate Fitting(list: set<u32>) { |RunKeys(list)| < 0x100 && |Heads(list)| < 0x1_0000 }

  lemma SubsetSize<T>(a: set<T>, b: set<T>)
    requires a <= b
    ensures |a| <= |b|
  {
    assert b == a + (b - a);
  }

  /** Fewer than 256 registers always fit. */
  lemma SmallListsFit(list: set<u32>)
    ensures |RunKeys(list)| <= |Heads(list)| <= |list|
    ensures |list| < 0x100 ==> Fitting(list)
  {
    SubsetSize(Heads(list), list);
    ImageSize(Heads(list), a => (Range(Chiplet(a), RunEnd(list, a)), Middle(a)), RunKeys(list));
  }

  lemma {:induction false} ImageSize(s: set<u32>, f: u32 -> (Range, u8), image: set<(Range, u8)>)
    requires forall p :: p in image <==> exists a :: a in s && f(a) == p
    ensures |image| <= |s|
    decreases s
  {
    if s == {} {
      assert image == {};
    } else {
      var a :| a in s;
      var rest := set b | b in s - {a} :: f(b);
      ImageSize(s - {a}, f, rest);
      assert image <= rest + {f(a)};
      SubsetSize(image, rest + {f(a)});
    }
  }

  /** One chiplet and all 256 middle bytes. */
  function AllMiddles(): set<u32> { set k | 0 <= k < 0x100 :: 0x1_0000 * k }

  /** That many middle bytes are one too many for the running count of table 1. */
  lemma AllMiddlesOverflow()
    ensures !Fitting(AllMiddles())
  {
    var list := AllMiddles();
    var keys := seq(0x100, k requires 0 <= k < 0x100 => (Range(0, 0), k));
    var found := set p | p in keys;
    forall k | 0 <= k < 0x100
      ensures keys[k] in RunKeys(list)
    {
      MiddleIsKey(k);
    }
    assert found <= RunKeys(list);
    SubsetSize(found, RunKeys(list));
    DistinctSize(keys, found);
  }

  lemma MiddleIsKey(k: u8)
    ensures (Range(0, 0), k) in RunKeys(AllMiddles())
  {
    var list, a := AllMiddles(), Address(0, k, 0);
    AddressParts(0, k, 0);
    assert a in list && a + CHIPLET !in list;
    assert a in Heads(list) && RunEnd(list, a) == 0;
  }

  lemma SizesAre(list: set<u32>, ranges: map<u24, seq<Range>>, rs: seq<Range>, groups: seq<Group>)
    requires Grouped(list, ranges, rs, groups)
    ensures Size2(groups) == |RunKeys(list)| && Size3(groups) == |Heads(list)|
  {
    RangesMeet(list, ranges, rs, groups);
    KeysHold(groups);
    RowsHold(groups);
    forall p
      ensures KeyAt(groups, p) <==> p in RunKeys(list)
    {
      KeysAreRuns(list, ranges, rs, groups, p);
    }
    forall a
      ensures AtLow(groups, a) <==> a in Heads(list)
    {
      LowsAreHeads(list, ranges, rs, groups, a);
    }
    DistinctSize(Keys(groups), RunKeys(list));
    DistinctSize(Rows(groups), Heads(list));
  }

  lemma NoEmptyGroups(list: set<u32>, ranges: map<u24, seq<Range>>, rs: seq<Range>, groups: seq<Group>)
    requires Grouped(list, ranges, rs, groups)
    ensures |groups| <= Size2(groups)
  {
    forall k | 0 <= k < |groups|
      ensures groups[k].entries != []
    {
      assert rs[k] in rs;
      var b :| b in ranges && rs[k] in ranges[b];
      assert Apart(ranges[b]) && GroupFor(groups[k], rs[k], BasesOf(ranges, rs[k]));
      RegisterParts(rs[k].lo, b);
      assert GroupHas(groups[k], Register(rs[k].lo, b));
    }
    AtLeastOneEach(groups);
  }

  lemma {:induction false} AtLeastOneEach(groups: seq<Group>)
    requires forall k :: 0 <= k < |groups| ==> groups[k].entries != []
    ensures |groups| <= Size2(groups)
  {
    if groups != [] {
      AtLeastOneEach(groups[..|groups| - 1]);
    }
  }

  /** `get_tables`: tables come out exactly for the lists whose runs fit, and then they are
      well formed and stand for exactly the listed registers. */
  method GetTables(list: set<u32>) returns (r: Generated)
    ensures r.Generated? <==> Fitting(list)
    ensures r.Generated? ==> WellFormed(r.tables) && forall a :: Denotes(r.tables, a) <==> a in list
    ensures r.Generated? ==> |r.tables.t1| <= |r.tables.t2| < 0x100 && |r.tables.t3| < 0x1_0000
  {
    var ranges, rs, groups := GroupAll(list);
    GroupsHoldList(list, ranges, rs, groups);
    SizesAre(list, ranges, rs, groups);
    NoEmptyGroups(list, ranges, rs, groups);
    r := BuildTables(groups);
  }

  /** The firmware's lookup in the generated tables is membership in the list. */
  method LookUp(list: set<u32>, a: u32) returns (r: Generated, present: bool)
    ensures r.Generated? <==> Fitting(list)
    ensures Fitting(list) ==> (present <==> a in list)
  {
    r := GetTables(list);
    present := false;
    if r.Generated? {
      present := IsPresent(r.tables, a);
    }
  }
}
