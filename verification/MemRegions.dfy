/** `SBESecureMemRegionManager`: the memory regions a host may touch while security
    is enabled, and the check that an access stays inside them. */
module MemRegions {
  import opened Bytes

  /** `secureMemRegion_t`: a 64-bit start, a 32-bit size, a bit mask of modes. */
  datatype Region = Region(start: nat, size: nat, mode: bv32)

  const NO_REGION := Region(0, 0, 0)

  /** The fields fit their types and the region ends below the top of memory. */
  predicate Fits(r: Region) {
    r.size < POW2_32 && r.start + r.size < POW2_64
  }

  predicate Holds(r: Region, a: int) {
    r.start <= a < r.start + r.size
  }

  /** The two ranges share an address. */
  ghost predicate Meets(a: Region, b: Region) {
    exists x :: Holds(a, x) && Holds(b, x)
  }

  // ----- the scan, with the code's 64- and 32-bit arithmetic

  function End(r: Region): int { (r.start + r.size - 1) % POW2_64 }

  /** The overlap test: the span of both ranges against the 32-bit sum of their sizes. */
  predicate Detects(open: Region, r: Region) {
    var minStart := if r.start < open.start then r.start else open.start;
    var maxEnd := if End(r) >= End(open) then End(r) else End(open);
    (maxEnd - minStart + 1) % POW2_64 < (r.size + open.size) % POW2_32
  }

  predicate StartsIn(r: Region, open: Region) {
    r.start >= open.start && r.start < (open.start + open.size) % POW2_64
  }

  /** The part of `open` that begins where `r` begins, no longer than `r`. */
  function Clip(open: Region, r: Region): Region {
    var size := (open.start + open.size - r.start) % POW2_32;
    Region(r.start, if size > r.size then r.size else size, open.mode)
  }

  /** The scan from entry `i` on, having found `ret` so far. */
  function ScanFrom(open: seq<Region>, r: Region, i: nat, ret: Region): Region
    requires i <= |open|
    decreases |open| - i
  {
    if i == |open| then ret
    else if !Detects(open[i], r) then ScanFrom(open, r, i + 1, ret)
    else if StartsIn(r, open[i]) then Clip(open[i], r)
    else ScanFrom(open, r, i + 1, open[i])
  }

  function Partial(open: seq<Region>, r: Region): Region {
    ScanFrom(open, r, 0, NO_REGION)
  }

  // ----- what the overlap test means

  /** The test is true exactly for ranges that share an address and whose sizes add up
      within 32 bits, or when one of them is empty at address zero and the other is not empty. */
  lemma DetectsExactly(a: Region, b: Region)
    requires Fits(a) && Fits(b)
    ensures Detects(a, b) <==>
              || (Meets(a, b) && a.size + b.size < POW2_32)
              || (a.start == a.size == 0 && b.size > 0) || (b.start == b.size == 0 && a.size > 0)
  {
    EndValue(a);
    EndValue(b);
    if a.size > 0 && b.size > 0 {
      SpanOfOverlap(a, b);
      var lo := if b.start < a.start then b.start else a.start;
      var hi := if End(b) >= End(a) then End(b) else End(a);
      Mod64(hi - lo + 1);
      Sum32(a.size, b.size);
    } else {
      assert !Meets(a, b);
      EmptyDetects(a, b);
    }
  }

  lemma Mod64(x: int)
    requires 0 <= x < POW2_64
    ensures x % POW2_64 == x
  {
  }

  lemma Sum32(x: int, y: int)
    requires 0 <= x < POW2_32 && 0 <= y < POW2_32
    ensures (x + y) % POW2_32 == if x + y < POW2_32 then x + y else x + y - POW2_32
  {
  }

  lemma EndValue(r: Region)
    requires Fits(r)
    ensures End(r) == if r.start + r.size == 0 then POW2_64 - 1 else r.start + r.size - 1
  {
  }

  lemma EmptyDetects(a: Region, b: Region)
    requires Fits(a) && Fits(b) && (a.size == 0 || b.size == 0)
    ensures Detects(a, b) <==> (a.start == a.size == 0 && b.size > 0) || (b.start == b.size == 0 && a.size > 0)
  {
    EndValue(a);
    EndValue(b);
    Sum32(a.size, b.size);
    var lo := if b.start < a.start then b.start else a.start;
    var hi := if End(b) >= End(a) then End(b) else End(a);
    if hi - lo + 1 < POW2_64 {
      Mod64(hi - lo + 1);
    }
  }

  lemma SpanOfOverlap(a: Region, b: Region)
    requires Fits(a) && Fits(b) && a.size > 0 && b.size > 0
    ensures Meets(a, b) <==> a.start < b.start + b.size && b.start < a.start + a.size
  {
    var lo := if a.start < b.start then b.start else a.start;
    if a.start < b.start + b.size && b.start < a.start + a.size {
      assert Holds(a, lo) && Holds(b, lo);
    }
  }

  /** The regions the code is meant for: non-empty, usable, and small enough. */
  predicate Plain(r: Region) {
    Fits(r) && r.size > 0 && r.mode != 0
  }

  ghost predicate AllPlain(open: seq<Region>) {
    forall i :: 0 <= i < |open| ==> Plain(open[i])
  }

  ghost predicate AllFit(open: seq<Region>) {
    forall i :: 0 <= i < |open| ==> Fits(open[i])
  }

  ghost predicate Disjoint(open: seq<Region>) {
    forall i, j :: 0 <= i < j < |open| ==> !Meets(open[i], open[j])
  }

  // ----- what the scan finds

  predicate Hits(open: Region, r: Region) {
    Detects(open, r) && StartsIn(r, open)
  }

  /** The first detected region holding the start of `r` wins. */
  lemma {:induction false} ScanHit(open: seq<Region>, r: Region, i: nat, ret: Region, k: nat)
    requires i <= k < |open| && Hits(open[k], r)
    requires forall j :: i <= j < k ==> !Hits(open[j], r)
    ensures ScanFrom(open, r, i, ret) == Clip(open[k], r)
    decreases k - i
  {
    if i < k {
      ScanHit(open, r, i + 1, if Detects(open[i], r) then open[i] else ret, k);
    }
  }

  /** Otherwise the scan returns the last detected region, if there is one. */
  lemma {:induction false} ScanMiss(open: seq<Region>, r: Region, i: nat, ret: Region)
    requires i <= |open| && forall j :: i <= j < |open| ==> !Hits(open[j], r)
    ensures
      || (ScanFrom(open, r, i, ret) == ret && forall j :: i <= j < |open| ==> !Detects(open[j], r))
      || exists j :: i <= j < |open| && Detects(open[j], r) && ScanFrom(open, r, i, ret) == open[j]
                     && forall l :: j < l < |open| ==> !Detects(open[l], r)
    decreases |open| - i
  {
    if i < |open| {
      ScanMiss(open, r, i + 1, if Detects(open[i], r) then open[i] else ret);
    }
  }

  lemma FirstHit(open: seq<Region>, r: Region, n: nat) returns (k: nat)
    requires n < |open| && Hits(open[n], r)
    ensures k <= n && Hits(open[k], r) && forall j :: 0 <= j < k ==> !Hits(open[j], r)
  {
    k := 0;
    while !Hits(open[k], r)
      invariant k <= n && forall j :: 0 <= j < k ==> !Hits(open[j], r)
      decreases n - k
    {
      k := k + 1;
    }
  }

  /** The region the scan settles on: the first detected one that holds the start of `r`, or
      else the last detected one. */
  ghost predicate Reported(open: seq<Region>, r: Region, k: int) {
    && 0 <= k < |open| && Detects(open[k], r)
    && if StartsIn(r, open[k]) then forall j :: 0 <= j < k ==> !Hits(open[j], r)
       else (forall j :: 0 <= j < |open| ==> !Hits(open[j], r)) && forall j :: k < j < |open| ==> !Detects(open[j], r)
  }

  lemma ReportedOnce(open: seq<Region>, r: Region, k: int, l: int)
    requires Reported(open, r, k) && Reported(open, r, l)
    ensures k == l
  {
  }

  lemma ScanReports(open: seq<Region>, r: Region) returns (k: int)
    ensures k < 0 ==> Partial(open, r) == NO_REGION && forall j :: 0 <= j < |open| ==> !Detects(open[j], r)
    ensures k >= 0 ==> Reported(open, r, k) && Partial(open, r) == if StartsIn(r, open[k]) then Clip(open[k], r) else open[k]
  {
    if n :| 0 <= n < |open| && Hits(open[n], r) {
      k := FirstHit(open, r, n);
      ScanHit(open, r, 0, NO_REGION, k);
    } else {
      ScanMiss(open, r, 0, NO_REGION);
      if forall j :: 0 <= j < |open| ==> !Detects(open[j], r) {
        k := -1;
      } else {
        k :| 0 <= k < |open| && Detects(open[k], r) && Partial(open, r) == open[k]
             && forall l :: k < l < |open| ==> !Detects(open[l], r);
      }
    }
  }

  /** An addition is taken for an amendment exactly when the region settled on has a mode. */
  lemma PartialDetects(open: seq<Region>, r: Region)
    ensures Partial(open, r).mode != 0 <==> exists k :: Reported(open, r, k) && open[k].mode != 0
  {
    var k := ScanReports(open, r);
    if l :| Reported(open, r, l) && open[l].mode != 0 {
      assert Detects(open[l], r);
      ReportedOnce(open, r, k, l);
    }
  }

  lemma StartInside(open: Region, r: Region)
    requires Fits(open) && Fits(r) && r.size > 0
    ensures StartsIn(r, open) <==> Holds(open, r.start)
    ensures Hits(open, r) <==> Holds(open, r.start) && open.size + r.size < POW2_32
  {
    DetectsExactly(open, r);
    if Holds(open, r.start) {
      assert Holds(r, r.start);
    }
  }

  /** The open region that a round of the check may use. */
  predicate Hop(open: Region, r: Region) { Holds(open, r.start) && open.size + r.size < POW2_32 }

  /** A detected region that begins where the request begins can be used, or is empty. */
  lemma DetectedAtStart(open: Region, r: Region)
    requires Fits(open) && Fits(r) && r.size > 0
    ensures Hits(open, r) <==> Hop(open, r)
    ensures Detects(open, r) && open.start == r.start ==> Hop(open, r) || EmptyAtZero(open)
    ensures EmptyAtZero(open) ==> Detects(open, r)
  {
    StartInside(open, r);
    DetectsExactly(open, r);
  }

  predicate EmptyAtZero(r: Region) { r.start == 0 && r.size == 0 }

  /** The check of one round. */
  predicate Granted(open: seq<Region>, r: Region) {
    var f := Partial(open, r);
    Shares(r.mode, f.mode) && r.start == f.start
  }

  /** The request begins at address zero, no open region can be used there, and the last one
      detected is empty, lies at address zero as well, and shares a mode bit. */
  ghost predicate Stalls(open: seq<Region>, r: Region) {
    && r.start == 0 && (forall k :: 0 <= k < |open| ==> !Hop(open[k], r))
    && exists k :: 0 <= k < |open| && EmptyAtZero(open[k]) && Shares(r.mode, open[k].mode)
                   && forall j :: k < j < |open| ==> !Detects(open[j], r)
  }

  /** A granted round uses an open region that holds the start, or the request stalls. */
  lemma GrantedBy(open: seq<Region>, r: Region) returns (k: int)
    requires AllFit(open) && Fits(r) && r.size > 0 && Granted(open, r)
    ensures 0 <= k < |open|
    ensures (Hop(open[k], r) && Partial(open, r) == Clip(open[k], r)) || (Stalls(open, r) && Partial(open, r) == open[k])
    ensures Hop(open[k], r) || EmptyAtZero(open[k])
  {
    SharedMode(r.mode, Partial(open, r).mode);
    k := ScanReports(open, r);
    DetectedAtStart(open[k], r);
    NoHits(open, r);
  }

  lemma NoHits(open: seq<Region>, r: Region)
    requires AllFit(open) && Fits(r) && r.size > 0
    ensures forall k :: 0 <= k < |open| ==> (Hits(open[k], r) <==> Hop(open[k], r))
  {
    forall k | 0 <= k < |open|
      ensures Hits(open[k], r) <==> Hop(open[k], r)
    {
      DetectedAtStart(open[k], r);
    }
  }

  /** A round is granted and gets the request no further exactly when the request stalls. The
      check then goes on with the same request, and never returns. */
  lemma StallsExactly(open: seq<Region>, r: Region)
    requires AllFit(open) && Fits(r) && r.size > 0
    ensures Granted(open, r) && Partial(open, r).size == 0 <==> Stalls(open, r)
  {
    if Granted(open, r) {
      var k := GrantedBy(open, r);
      if Hop(open[k], r) {
        ClipNotEmpty(open[k], r);
      }
    }
    if Stalls(open, r) {
      var k :| 0 <= k < |open| && EmptyAtZero(open[k]) && Shares(r.mode, open[k].mode)
               && forall j :: k < j < |open| ==> !Detects(open[j], r);
      DetectedAtStart(open[k], r);
      NoHits(open, r);
      assert Reported(open, r, k);
      var l := ScanReports(open, r);
      ReportedOnce(open, r, k, l);
    }
  }

  lemma ClipNotEmpty(open: Region, r: Region)
    requires Fits(open) && Fits(r) && r.size > 0 && Hop(open, r)
    ensures Clip(open, r).size > 0
  {
    ClipExtent(open, r);
  }

  /** Only the first round can stall. */
  lemma NoStallLater(open: seq<Region>, request: Region, done: nat)
    requires 0 < done <= request.size
    ensures !Stalls(open, Drop(request, done))
  {
  }

  /** When the sizes add up, the open region that holds the start is the one found. */
  lemma PartialFinds(open: seq<Region>, r: Region, k: nat)
    requires AllFit(open) && Disjoint(open) && Fits(r) && r.size > 0
    requires k < |open| && Hop(open[k], r)
    ensures Partial(open, r) == Clip(open[k], r)
  {
    StartInside(open[k], r);
    forall j | 0 <= j < k
      ensures !Hits(open[j], r)
    {
      StartInside(open[j], r);
      assert !Meets(open[j], open[k]);
    }
    ScanHit(open, r, 0, NO_REGION, k);
  }

  // ----- the access check

  /** Every address of the request lies in an open region that shares a mode bit with it. */
  ghost predicate Covered(open: seq<Region>, r: Region) {
    forall a :: Holds(r, a) ==> CoveredAt(open, a, r.mode)
  }

  ghost predicate CoveredAt(open: seq<Region>, a: int, mode: bv32) {
    exists i :: 0 <= i < |open| && Holds(open[i], a) && Shares(mode, open[i].mode)
  }

  predicate Shares(a: bv32, b: bv32) { a & b != 0 }

  function Drop(r: Region, n: nat): Region
    requires n <= r.size
  {
    Region(r.start + n, r.size - n, r.mode)
  }

  lemma ClipExtent(open: Region, r: Region)
    requires Fits(open) && Fits(r) && Holds(open, r.start)
    ensures var n := Clip(open, r).size;
      && n <= r.size && r.start + n <= open.start + open.size
      && (n == r.size || r.start + n == open.start + open.size)
  {
    var n := open.start + open.size - r.start;
    assert n % POW2_32 == n;
  }

  /** A granted round moves on, over addresses that are covered. */
  lemma RoundGrants(open: seq<Region>, r: Region) returns (k: int)
    requires AllFit(open) && Fits(r) && r.size > 0 && Granted(open, r) && !Stalls(open, r)
    ensures 0 < Partial(open, r).size <= r.size
    ensures forall a :: r.start <= a < r.start + Partial(open, r).size ==> CoveredAt(open, a, r.mode)
    ensures 0 <= k < |open| && Hop(open[k], r) && Partial(open, r) == Clip(open[k], r)
  {
    k := GrantedBy(open, r);
    ClipNotEmpty(open[k], r);
    ClipExtent(open[k], r);
    forall a | r.start <= a < r.start + Partial(open, r).size
      ensures CoveredAt(open, a, r.mode)
    {
      assert Holds(open[k], a);
    }
  }

  /** A round is granted when a hop starts there whose mode shares a bit. */
  lemma RoundFinds(open: seq<Region>, r: Region, k: nat)
    requires AllFit(open) && Disjoint(open) && Fits(r) && r.size > 0
    requires k < |open| && Hop(open[k], r) && Shares(r.mode, open[k].mode)
    ensures Granted(open, r)
  {
    PartialFinds(open, r, k);
  }

  /** From where the check enters an open region, its size and what is left of the request
      add up in 32 bits. */
  predicate RestFits(open: Region, request: Region) {
    var entry := if open.start < request.start then request.start else open.start;
    open.size + (request.start + request.size - entry) < POW2_32
  }

  ghost predicate HopsFit(open: seq<Region>, request: Region) {
    forall k, a :: 0 <= k < |open| && Holds(request, a) && Holds(open[k], a) ==> RestFits(open[k], request)
  }

  /** The check has come `done` bytes far: it enters the next region at its start, and the
      regions passed fit. */
  ghost predicate Passed(open: seq<Region>, request: Region, done: nat) {
    && (forall k :: 0 <= k < |open| && Holds(open[k], request.start + done) ==>
        done == 0 || open[k].start == request.start + done)
    && (forall k, a :: 0 <= k < |open| && request.start <= a < request.start + done && Holds(open[k], a) ==>
        RestFits(open[k], request))
  }

  /** Where the check stands, what is left of the request is what counts for the region
      entered there. */
  lemma EntryRest(open: seq<Region>, request: Region, done: nat, k: nat)
    requires Passed(open, request, done) && done <= request.size
    requires k < |open| && Holds(open[k], request.start + done)
    ensures RestFits(open[k], request) <==> Hop(open[k], Drop(request, done))
  {
  }

  lemma OneHolder(open: seq<Region>, j: nat, k: nat, a: int)
    requires Disjoint(open) && j < |open| && k < |open|
    ensures Holds(open[j], a) && Holds(open[k], a) ==> j == k
  {
    assert j < k ==> !Meets(open[j], open[k]);
    assert k < j ==> !Meets(open[k], open[j]);
  }

  lemma PassOne(open: seq<Region>, request: Region, done: nat, k: nat)
    requires AllFit(open) && Disjoint(open) && Fits(request) && done < request.size && Passed(open, request, done)
    requires k < |open| && Hop(open[k], Drop(request, done))
    ensures var n := Clip(open[k], Drop(request, done)).size;
      done + n <= request.size && (done + n < request.size ==> Passed(open, request, done + n))
    ensures var n := Clip(open[k], Drop(request, done)).size; done + n == request.size ==> HopsFit(open, request)
  {
    var r := Drop(request, done);
    var n := Clip(open[k], r).size;
    ClipExtent(open[k], r);
    EntryRest(open, request, done, k);
    forall j, a | 0 <= j < |open| && request.start <= a < request.start + done + n && Holds(open[j], a)
      ensures RestFits(open[j], request)
    {
      OneHolder(open, j, k, a);
    }
    if done + n < request.size {
      NextEntry(open, k, request.start + done + n);
    }
  }

  /** The address after a region is the first of the next one. */
  lemma NextEntry(open: seq<Region>, k: nat, at: int)
    requires Disjoint(open) && k < |open| && open[k].size > 0 && at == open[k].start + open[k].size
    ensures forall j :: 0 <= j < |open| && Holds(open[j], at) ==> open[j].start == at
  {
    forall j | 0 <= j < |open| && Holds(open[j], at)
      ensures open[j].start == at
    {
      OneHolder(open, j, k, at - 1);
    }
  }

  lemma SharedMode(a: bv32, b: bv32)
    ensures Shares(a, b) ==> b != 0
  {
  }

  // ----- the operations on the list of open regions

  datatype Response = Success | AmendAttempted | MaximumExceeded | NotFound | Blocked

  datatype Op = Add(region: Region) | Remove(start: nat) | CloseAll

  predicate Opened(open: seq<Region>, start: nat) {
    exists i :: 0 <= i < |open| && open[i].start == start
  }

  function Without(open: seq<Region>, start: nat): seq<Region> {
    if open == [] then []
    else if open[0].start == start then open[1..]
    else [open[0]] + Without(open[1..], start)
  }

  function Answer(open: seq<Region>, max: nat, op: Op): Response {
    match op
    case Add(r) =>
      if Partial(open, r).mode != 0 then AmendAttempted
      else if |open| >= max then MaximumExceeded
      else Success
    case Remove(start) => if Opened(open, start) then Success else NotFound
    case CloseAll => Success
  }

  function Apply(open: seq<Region>, max: nat, op: Op): seq<Region> {
    match op
    case Add(r) => if Answer(open, max, op) == Success then open + [r] else open
    case Remove(start) => Without(open, start)
    case CloseAll => []
  }

  /** The manager object: a table of fixed capacity and the number of entries in use. */
  class RegionManager {
    const memRegions: array<Region>
    var openCnt: nat

    ghost predicate Valid()
      reads this
    {
      openCnt <= memRegions.Length
    }

    ghost function Open(): seq<Region>
      reads this, memRegions
      requires Valid()
    {
      memRegions[..openCnt]
    }

    constructor (maxRegions: nat)
      ensures Valid() && fresh(memRegions) && memRegions.Length == maxRegions && Open() == []
    {
      memRegions, openCnt := new Region[maxRegions](_ => NO_REGION), 0;
    }

    method GetPartialRegionSize(r: Region) returns (ret: Region)
      requires Valid()
      ensures ret == Partial(Open(), r)
    {
      ret := NO_REGION;
      for i := 0 to openCnt
        invariant ScanFrom(Open(), r, i, ret) == Partial(Open(), r)
      {
        if Detects(memRegions[i], r) {
          ret := memRegions[i];
          if StartsIn(r, memRegions[i]) {
            ret := Clip(memRegions[i], r);
            return;
          }
        }
      }
    }

    method Add(start: nat, size: nat, mode: bv8) returns (rc: Response)
      requires Valid()
      modifies this, memRegions
      ensures Valid()
      ensures var op := Op.Add(Region(start, size, mode as bv32));
        rc == Answer(old(Open()), memRegions.Length, op) && Open() == Apply(old(Open()), memRegions.Length, op)
    {
      var r := Region(start, size, mode as bv32);
      var found := GetPartialRegionSize(r);
      if found.mode != 0 {
        return AmendAttempted;
      }
      if openCnt >= memRegions.Length {
        return MaximumExceeded;
      }
      memRegions[openCnt] := r;
      openCnt := openCnt + 1;
      rc := Success;
    }

    method Remove(start: nat) returns (rc: Response)
      requires Valid()
      modifies this, memRegions
      ensures Valid()
      ensures rc == Answer(old(Open()), memRegions.Length, Op.Remove(start))
      ensures Open() == Apply(old(Open()), memRegions.Length, Op.Remove(start))
    {
      ghost var open := Open();
      var i := 0;
      while i < openCnt && memRegions[i].start != start
        invariant 0 <= i <= openCnt && forall k :: 0 <= k < i ==> open[k].start != start
      {
        i := i + 1;
      }
      if i < openCnt {
        RemoveFirst(open, start, i);
        ShiftDown(i);
        rc := Success;
      } else {
        RemoveNone(open, start);
        rc := NotFound;
      }
    }

    /** Moves the regions behind `i` one down. */
    method ShiftDown(i: nat)
      requires Valid() && i < openCnt
      modifies this, memRegions
      ensures Valid() && Open() == old(Open())[..i] + old(Open())[i + 1..]
    {
      ghost var open := Open();
      for j := i to openCnt - 1
        invariant openCnt == |open| <= memRegions.Length
        invariant forall k :: 0 <= k < openCnt ==> memRegions[k] == open[if i <= k < j then k + 1 else k]
      {
        memRegions[j] := memRegions[j + 1];
      }
      openCnt := openCnt - 1;
    }

    method CloseAllRegions()
      requires Valid()
      modifies this
      ensures Valid() && Open() == []
    {
      openCnt := 0;
    }

    /** With security enabled, success is never given for an address outside the open
        regions; over disjoint regions it is given exactly to the covered requests that fit
        32 bits at every region they enter. A request that stalls is the only one on which
        the check does not return. */
    method IsAccessAllowed(request: Region, securityEnabled: bool) returns (rc: Response)
      requires Valid() && AllFit(Open()) && Fits(request)
      requires securityEnabled && request.size > 0 ==> !Stalls(Open(), request)
      ensures rc == Success || rc == Blocked
      ensures securityEnabled && rc == Success ==> Covered(Open(), request)
      ensures Disjoint(Open()) ==>
        (rc == Success <==> !securityEnabled || (Covered(Open(), request) && HopsFit(Open(), request)))
    {
      if !securityEnabled {
        return Success;
      }
      var r := request;
      ghost var done: nat := 0;
      while r.size > 0
        invariant done <= request.size && r == Drop(request, done)
        invariant forall a :: request.start <= a < request.start + done ==> CoveredAt(Open(), a, request.mode)
        invariant Disjoint(Open()) ==> if done < request.size then Passed(Open(), request, done) else HopsFit(Open(), request)
        decreases r.size
      {
        var found := GetPartialRegionSize(r);
        if Shares(r.mode, found.mode) && r.start == found.start {
          if done > 0 {
            NoStallLater(Open(), request, done);
          }
          ghost var k := RoundGrants(Open(), r);
          if Disjoint(Open()) {
            PassOne(Open(), request, done, k);
          }
          r := r.(size := r.size - found.size, start := r.start + found.size);
          done := done + found.size;
        } else {
          if Disjoint(Open()) {
            Refused(Open(), request, done);
          }
          return Blocked;
        }
      }
      rc := Success;
    }
  }

  /** A round that is not granted stands at an address that is not covered or does not fit. */
  lemma Refused(open: seq<Region>, request: Region, done: nat)
    requires AllFit(open) && Disjoint(open) && Fits(request) && done < request.size && Passed(open, request, done)
    requires !Granted(open, Drop(request, done))
    ensures !(Covered(open, request) && HopsFit(open, request))
  {
    if Covered(open, request) && HopsFit(open, request) {
      var r := Drop(request, done);
      assert Holds(request, r.start);
      var k :| 0 <= k < |open| && Holds(open[k], r.start) && Shares(r.mode, open[k].mode);
      EntryRest(open, request, done, k);
      RoundFinds(open, r, k);
    }
  }

  /** With an empty region open at address zero alone, every request there that shares a mode
      bit stalls. */
  lemma EmptyAtZeroStalls(empty: Region, r: Region)
    requires EmptyAtZero(empty) && r.start == 0 && Shares(r.mode, empty.mode)
    ensures Stalls([empty], r)
  {
    assert [empty][0] == empty;
  }

  /** A covered request for a whole large region is refused. */
  lemma LargeRequestRefused()
    ensures var big := Region(0x1000, 0x8000_0000, 3);
      Plain(big) && Disjoint([big]) && Covered([big], big) && !HopsFit([big], big) && Partial([big], big) == NO_REGION
  {
    var big := Region(0x1000, 0x8000_0000, 3);
    assert Shares(big.mode, big.mode) && [big][0] == big && Holds(big, 0x1000);
    forall a | Holds(big, a)
      ensures CoveredAt([big], a, big.mode)
    {
      assert Holds([big][0], a);
    }
  }

  lemma {:induction false} RemoveFirst(open: seq<Region>, start: nat, i: nat)
    requires i < |open| && open[i].start == start && forall k :: 0 <= k < i ==> open[k].start != start
    ensures Without(open, start) == open[..i] + open[i + 1..]
  {
    if i > 0 {
      RemoveFirst(open[1..], start, i - 1);
    }
  }

  lemma {:induction false} RemoveNone(open: seq<Region>, start: nat)
    requires forall k :: 0 <= k < |open| ==> open[k].start != start
    ensures Without(open, start) == open
  {
    if open != [] {
      RemoveNone(open[1..], start);
    }
  }

  /** Closing a region takes out the first one open at that start and leaves the others in
      order; it is reported as not found exactly when none is open there. */
  lemma RemoveClosesOne(open: seq<Region>, max: nat, start: nat)
    ensures Answer(open, max, Remove(start)) == NotFound <==> forall i :: 0 <= i < |open| ==> open[i].start != start
    ensures Answer(open, max, Remove(start)) in {Success, NotFound}
    ensures Answer(open, max, Remove(start)) == NotFound ==> Apply(open, max, Remove(start)) == open
    ensures forall i :: 0 <= i < |open| && open[i].start == start && (forall k :: 0 <= k < i ==> open[k].start != start) ==>
              Apply(open, max, Remove(start)) == open[..i] + open[i + 1..]
  {
    if forall i :: 0 <= i < |open| ==> open[i].start != start {
      RemoveNone(open, start);
    }
    forall i | 0 <= i < |open| && open[i].start == start && (forall k :: 0 <= k < i ==> open[k].start != start)
      ensures Without(open, start) == open[..i] + open[i + 1..]
    {
      RemoveFirst(open, start, i);
    }
  }

  /** What an addition is answered, and that it adds the region at the end exactly when it
      succeeds: an amend is noticed by the mode of the region the scan settles on. */
  lemma AddAnswers(open: seq<Region>, max: nat, r: Region)
    ensures Answer(open, max, Add(r)) == AmendAttempted <==> exists k :: Reported(open, r, k) && open[k].mode != 0
    ensures Answer(open, max, Add(r)) == Success ==> |open| < max && Apply(open, max, Add(r)) == open + [r]
    ensures Answer(open, max, Add(r)) == MaximumExceeded ==> |open| >= max
    ensures Answer(open, max, Add(r)) != Success ==> Apply(open, max, Add(r)) == open
    ensures Answer(open, max, Add(r)) in {Success, AmendAttempted, MaximumExceeded}
  {
    PartialDetects(open, r);
  }

  // ----- every sequence of operations

  /** The regions are disjoint and within the table. */
  ghost predicate Orderly(open: seq<Region>, max: nat) {
    AllFit(open) && Disjoint(open) && |open| <= max
  }

  ghost predicate MeetsSome(open: seq<Region>, r: Region) {
    exists i :: 0 <= i < |open| && Meets(open[i], r)
  }

  /** There is room, the new range meets an open one, and the region the scan settles on, if
      there is one, has no mode. */
  ghost predicate Unseen(open: seq<Region>, max: nat, r: Region) {
    && |open| < max && MeetsSome(open, r)
    && forall k :: Reported(open, r, k) ==> open[k].mode == 0
  }

  /** Adding keeps the regions disjoint exactly unless it overlaps unseen. */
  lemma AddKeepsDisjoint(open: seq<Region>, max: nat, r: Region)
    requires Orderly(open, max) && Fits(r)
    ensures Disjoint(Apply(open, max, Add(r))) <==> !Unseen(open, max, r)
  {
    PartialDetects(open, r);
    var after := open + [r];
    if i :| 0 <= i < |open| && Meets(open[i], r) {
      assert Meets(after[i], after[|open|]);
    }
  }

  /** Among regions that are not empty and have a mode, an overlap is unseen exactly when all
      regions met are so large that the sizes wrap. */
  lemma UnseenByWrapping(open: seq<Region>, max: nat, r: Region)
    requires AllPlain(open) && Plain(r)
    ensures Unseen(open, max, r) <==>
              && |open| < max && MeetsSome(open, r)
              && forall i :: 0 <= i < |open| && Meets(open[i], r) ==> open[i].size + r.size >= POW2_32
  {
    forall i | 0 <= i < |open|
      ensures Detects(open[i], r) <==> Meets(open[i], r) && open[i].size + r.size < POW2_32
    {
      DetectsExactly(open[i], r);
    }
    var k := ScanReports(open, r);
  }

  /** A region without a mode hides an overlap with one that has a mode. */
  lemma ModelessHides()
    ensures var open, r := [Region(0x1000, 0x100, 3), Region(0x1200, 0x10, 0)], Region(0x0F00, 0x400, 3);
      Orderly(open, 8) && Unseen(open, 8, r) && !Disjoint(Apply(open, 8, Add(r)))
  {
    var open, r := [Region(0x1000, 0x100, 3), Region(0x1200, 0x10, 0)], Region(0x0F00, 0x400, 3);
    DetectsExactly(open[0], r);
    DetectsExactly(open[1], r);
    assert Holds(open[0], 0x1000) && Holds(r, 0x1000) && Holds(open[1], 0x1200) && Holds(r, 0x1200);
    assert Meets(open[0], r) && Meets(open[1], r);
    assert !StartsIn(r, open[0]) && !StartsIn(r, open[1]);
    AddKeepsDisjoint(open, 8, r);
  }

  function Replay(open: seq<Region>, max: nat, ops: seq<Op>): seq<Region>
    decreases |ops|
  {
    if ops == [] then open else Replay(Apply(open, max, ops[0]), max, ops[1..])
  }

  /** No addition overlaps unseen. */
  ghost predicate Careful(open: seq<Region>, max: nat, ops: seq<Op>)
    decreases |ops|
  {
    ops != [] ==>
      (ops[0].Add? ==> !Unseen(open, max, ops[0].region)) && Careful(Apply(open, max, ops[0]), max, ops[1..])
  }

  ghost predicate AddsFit(ops: seq<Op>) {
    forall i :: 0 <= i < |ops| && ops[i].Add? ==> Fits(ops[i].region)
  }

  /** The regions are orderly after every number of operations. */
  ghost predicate AlwaysOrderly(open: seq<Region>, max: nat, ops: seq<Op>) {
    forall k :: 0 <= k <= |ops| ==> Orderly(Replay(open, max, ops[..k]), max)
  }

  lemma AlwaysNow(open: seq<Region>, max: nat, ops: seq<Op>)
    ensures AlwaysOrderly(open, max, ops) ==> Orderly(open, max)
  {
    assert ops[..0] == [] && Replay(open, max, []) == open;
  }

  lemma AlwaysStep(open: seq<Region>, max: nat, ops: seq<Op>)
    requires ops != []
    ensures AlwaysOrderly(open, max, ops) <==> Orderly(open, max) && AlwaysOrderly(Apply(open, max, ops[0]), max, ops[1..])
  {
    var next := Apply(open, max, ops[0]);
    forall k | 0 < k <= |ops|
      ensures Replay(open, max, ops[..k]) == Replay(next, max, ops[1..][..k - 1])
    {
      assert ops[..k][1..] == ops[1..][..k - 1];
    }
    assert ops[..0] == [];
    if AlwaysOrderly(open, max, ops) {
      assert Orderly(Replay(open, max, ops[..0]), max);
      forall k | 0 <= k <= |ops[1..]|
        ensures Orderly(Replay(next, max, ops[1..][..k]), max)
      {
        assert Orderly(Replay(open, max, ops[..k + 1]), max);
      }
    }
  }

  lemma WithoutIsSubsequence(open: seq<Region>, start: nat)
    ensures Without(open, start) == open
         || exists i :: 0 <= i < |open| && open[i].start == start && Without(open, start) == open[..i] + open[i + 1..]
  {
    if i :| 0 <= i < |open| && open[i].start == start {
      var k := 0;
      while open[k].start != start
        invariant k <= i && forall j :: 0 <= j < k ==> open[j].start != start
        decreases i - k
      {
        k := k + 1;
      }
      RemoveFirst(open, start, k);
    } else {
      RemoveNone(open, start);
    }
  }

  lemma RemoveKeepsOrder(open: seq<Region>, max: nat, start: nat)
    requires Orderly(open, max)
    ensures Orderly(Without(open, start), max)
  {
    WithoutIsSubsequence(open, start);
  }

  lemma ApplyKeepsOrder(open: seq<Region>, max: nat, op: Op)
    requires Orderly(open, max) && (op.Add? ==> Fits(op.region))
    ensures Orderly(Apply(open, max, op), max) <==> !(op.Add? && Unseen(open, max, op.region))
  {
    if op.Add? {
      AddKeepsDisjoint(open, max, op.region);
    } else if op.Remove? {
      RemoveKeepsOrder(open, max, op.start);
    }
  }

  /** Over every sequence of additions, removals and closings the open regions stay
      pairwise disjoint and within the table, exactly when no addition overlaps unseen. */
  lemma {:induction false} ReplayKeepsOrder(open: seq<Region>, max: nat, ops: seq<Op>)
    requires Orderly(open, max) && AddsFit(ops)
    ensures AlwaysOrderly(open, max, ops) <==> Careful(open, max, ops)
    decreases |ops|
  {
    if ops == [] {
      assert ops[..0] == [];
    } else {
      AlwaysStep(open, max, ops);
      ApplyKeepsOrder(open, max, ops[0]);
      var next := Apply(open, max, ops[0]);
      if Orderly(next, max) {
        ReplayKeepsOrder(next, max, ops[1..]);
      } else {
        AlwaysNow(next, max, ops[1..]);
      }
    }
  }

  /** Two 2 GiB regions at the same address are both accepted: the sizes wrap to zero. */
  lemma WrappedSizesOverlap()
    ensures var big := Region(0x1000, 0x8000_0000, 3);
      Plain(big) && Apply([big], 8, Add(big)) == [big, big] && !Disjoint([big, big])
  {
    var big := Region(0x1000, 0x8000_0000, 3);
    DetectsExactly(big, big);
    PartialDetects([big], big);
    assert Holds(big, 0x1000);
    assert Meets([big, big][0], [big, big][1]);
  }
}
