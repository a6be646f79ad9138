/** The security lists: an address is looked up through three tables, each level a slice
    of the next bounded by running counts. */
module SecurityTables {
  import opened Bytes

  /** A chiplet range and the running count of its entries in table 2. */
  datatype T1 = T1(lo: u8, hi: u8, count: u8)

  /** A middle byte and the running count of its entries in table 3. */
  datatype T2 = T2(key: u8, count: u16)

  datatype Tables = Tables(t1: seq<T1>, t2: seq<T2>, t3: seq<u16>)

  // The parts of an address the three masks select.
  function Chiplet(a: u32): u8 { a / 0x100_0000 }
  function Middle(a: u32): u8 { a / 0x1_0000 % 0x100 }
  function Low(a: u32): u16 { a % 0x1_0000 }

  function Begin1(t: Tables, i: nat): nat
    requires i < |t.t1|
  {
    if i == 0 then 0 else t.t1[i - 1].count
  }

  function Begin2(t: Tables, j: nat): nat
    requires j < |t.t2|
  {
    if j == 0 then 0 else t.t2[j - 1].count
  }

  predicate InSlice1(t: Tables, i: nat, j: nat) {
    i < |t.t1| && Begin1(t, i) <= j < t.t1[i].count
  }

  predicate InSlice2(t: Tables, j: nat, k: nat) {
    j < |t.t2| && Begin2(t, j) <= k < t.t2[j].count
  }

  /** Running counts never fall and stay within the next table. */
  ghost predicate CountsRun(t: Tables) {
    && (forall i :: 0 <= i < |t.t1| ==> Begin1(t, i) <= t.t1[i].count <= |t.t2|)
    && (forall j :: 0 <= j < |t.t2| ==> Begin2(t, j) <= t.t2[j].count <= |t.t3|)
  }

  /** Besides, every slice is sorted, the keys of a table 2 slice without repetition. */
  ghost predicate WellFormed(t: Tables) {
    && CountsRun(t)
    && (forall i: nat, j: nat, k: nat :: InSlice1(t, i, j) && InSlice1(t, i, k) && j < k ==> t.t2[j].key < t.t2[k].key)
    && (forall j: nat, k: nat, l: nat :: InSlice2(t, j, k) && InSlice2(t, j, l) && k < l ==> t.t3[k] <= t.t3[l])
  }

  /** One path through the tables. */
  ghost predicate Path(t: Tables, a: u32, i: nat, j: nat, k: nat) {
    && InSlice1(t, i, j) && InSlice2(t, j, k) && k < |t.t3|
    && t.t1[i].lo <= Chiplet(a) <= t.t1[i].hi && t.t2[j].key == Middle(a) && t.t3[k] == Low(a)
  }

  /** The set of addresses the tables stand for. */
  ghost predicate Denotes(t: Tables, a: u32) {
    exists i: nat, j: nat, k: nat :: Path(t, a, i, j, k)
  }

  /** `binary_search` over the closed range from `lo` to `hi`, empty when `hi < lo`. */
  method BinarySearch(key: int, lo: int, hi: int, element: int -> int) returns (found: bool, at: int)
    requires 0 <= lo
    requires forall i, j :: lo <= i < j <= hi ==> element(i) <= element(j)
    ensures found ==> lo <= at <= hi && element(at) == key
    ensures !found ==> forall i :: lo <= i <= hi ==> element(i) != key
  {
    var first, last := lo, hi;
    found, at := false, 0;
    while first <= last && !found
      invariant lo <= first && last <= hi
      invariant found ==> lo <= at <= hi && element(at) == key
      invariant !found ==> forall i :: lo <= i <= hi && !(first <= i <= last) ==> element(i) != key
      decreases !found, last - first
    {
      var midpoint := (first + last) / 2;
      var ele := element(midpoint);
      if key == ele {
        found, at := true, midpoint;
      } else if key < ele {
        last := midpoint - 1;
      } else {
        first := midpoint + 1;
      }
    }
  }

  function Key2(t: Tables): int -> int {
    i => if 0 <= i < |t.t2| then t.t2[i].key else 0
  }

  function Value3(t: Tables): int -> int {
    i => if 0 <= i < |t.t3| then t.t3[i] else 0
  }

  method FindMiddle(t: Tables, key: u8, i: nat) returns (found: bool, j: nat)
    requires WellFormed(t) && i < |t.t1|
    ensures found ==> InSlice1(t, i, j) && t.t2[j].key == key
    ensures !found ==> forall j: nat :: InSlice1(t, i, j) ==> t.t2[j].key != key
  {
    var lo, hi := Begin1(t, i), t.t1[i].count - 1;
    forall x, y | lo <= x < y <= hi
      ensures Key2(t)(x) <= Key2(t)(y)
    {
      assert InSlice1(t, i, x) && InSlice1(t, i, y);
    }
    var at;
    found, at := BinarySearch(key, lo, hi, Key2(t));
    j := if found then at else 0;
    if !found {
      forall j: nat | InSlice1(t, i, j)
        ensures t.t2[j].key != key
      {
        assert Key2(t)(j) != key;
      }
    }
  }

  method FindLow(t: Tables, value: u16, j: nat) returns (found: bool)
    requires WellFormed(t) && j < |t.t2|
    ensures found <==> exists k: nat :: InSlice2(t, j, k) && t.t3[k] == value
  {
    var lo, hi := Begin2(t, j), t.t2[j].count - 1;
    forall x, y | lo <= x < y <= hi
      ensures Value3(t)(x) <= Value3(t)(y)
    {
      assert InSlice2(t, j, x) && InSlice2(t, j, y);
    }
    var at;
    found, at := BinarySearch(value, lo, hi, Value3(t));
    if found {
      assert InSlice2(t, j, at) && t.t3[at] == value;
    } else {
      forall k: nat | InSlice2(t, j, k)
        ensures t.t3[k] != value
      {
        assert Value3(t)(k) != value;
      }
    }
  }

  /** Some path goes through entry `i` of table 1. */
  ghost predicate PathFrom(t: Tables, a: u32, i: nat) {
    exists j: nat, k: nat :: Path(t, a, i, j, k)
  }

  /** A key occurs once in a slice of table 2. */
  lemma KeyUnique(t: Tables, i: nat, j: nat, j': nat)
    requires WellFormed(t) && InSlice1(t, i, j) && InSlice1(t, i, j') && t.t2[j].key == t.t2[j'].key
    ensures j == j'
  {
  }

  /** The two searches below one range of table 1. */
  method SearchBelow(t: Tables, a: u32, i: nat) returns (r: bool)
    requires WellFormed(t) && i < |t.t1| && t.t1[i].lo <= Chiplet(a) <= t.t1[i].hi
    ensures r <==> PathFrom(t, a, i)
  {
    var found, j := FindMiddle(t, Middle(a), i);
    if !found {
      return false;
    }
    r := FindLow(t, Low(a), j);
    if r {
      var k: nat :| InSlice2(t, j, k) && t.t3[k] == Low(a);
      assert Path(t, a, i, j, k);
    } else if PathFrom(t, a, i) {
      ghost var j': nat, k': nat :| Path(t, a, i, j', k');
      KeyUnique(t, i, j, j');
    }
  }

  /** `_is_present`: true exactly for the addresses the tables stand for, whether or not
      the chiplet ranges overlap. */
  method IsPresent(t: Tables, a: u32) returns (r: bool)
    requires WellFormed(t)
    ensures r <==> Denotes(t, a)
  {
    for i := 0 to |t.t1|
      invariant forall i': nat :: i' < i ==> !PathFrom(t, a, i')
    {
      if t.t1[i].lo <= Chiplet(a) <= t.t1[i].hi {
        var found := SearchBelow(t, a, i);
        if found {
          return true;
        }
      }
    }
    if Denotes(t, a) {
      ghost var i: nat, j: nat, k: nat :| Path(t, a, i, j, k);
      assert PathFrom(t, a, i);
    }
    return false;
  }

  // ----- the grey list and the access check

  const ALL_BITS: u64 := 0xFFFF_FFFF_FFFF_FFFF

  /** A register and the bits of it that may be written. */
  datatype Grey = Grey(key: u32, bits: u64)

  /** No bit of `mask` lies outside `bits`: `mask & ~bits` is zero. */
  predicate Within(mask: nat, bits: nat) {
    mask == 0 || ((mask % 2 == 1 ==> bits % 2 == 1) && Within(mask / 2, bits / 2))
  }

  /** Every bit of the mask is one of `bits`. */
  ghost predicate AllowsAll(bits: nat, mask: nat) { forall i: nat :: BitSet(mask, i) ==> BitSet(bits, i) }

  /** The test of the code goes bit by bit. */
  lemma {:induction false} WithinIsAllowed(mask: nat, bits: nat)
    ensures Within(mask, bits) <==> AllowsAll(bits, mask)
    decreases mask
  {
    if mask == 0 {
      forall i: nat
        ensures !BitSet(mask, i)
      {
      }
    } else {
      WithinIsAllowed(mask / 2, bits / 2);
      BitAbove(mask, 0);
      BitAbove(bits, 0);
      if Within(mask, bits) {
        forall i: nat | BitSet(mask, i)
          ensures BitSet(bits, i)
        {
          if i > 0 {
            BitAbove(mask, i - 1);
            BitAbove(bits, i - 1);
          }
        }
      }
      if AllowsAll(bits, mask) {
        forall i: nat
          ensures BitSet(mask / 2, i) ==> BitSet(bits / 2, i)
        {
          BitAbove(mask, i);
          BitAbove(bits, i);
          assert BitSet(mask, i + 1) ==> BitSet(bits, i + 1);
        }
        assert BitSet(mask, 0) ==> BitSet(bits, 0);
      }
    }
  }

  /** Some grey entry of the register allows every bit of the mask. */
  ghost predicate GreyHolds(grey: seq<Grey>, a: u32, mask: u64) {
    exists i :: 0 <= i < |grey| && grey[i].key == a && AllowsAll(grey[i].bits, mask)
  }

  /** The second `_is_present`. */
  method GreyIsPresent(grey: seq<Grey>, a: u32, mask: u64) returns (r: bool)
    ensures r <==> GreyHolds(grey, a, mask)
  {
    r := false;
    for i := 0 to |grey|
      invariant !r && forall k :: 0 <= k < i ==> !(grey[k].key == a && AllowsAll(grey[k].bits, mask))
    {
      WithinIsAllowed(mask, grey[i].bits);
      if grey[i].key == a && Within(mask, grey[i].bits) {
        r := true;
        break;
      }
    }
  }

  datatype Lists = Lists(white: Tables, black: Tables, grey: seq<Grey>)

  ghost predicate WellFormedLists(l: Lists) { WellFormed(l.white) && WellFormed(l.black) }

  datatype AccessType = Read | Write

  /** A write needs the white list, or the grey list for part of a register; a read is
      refused by the black list only. */
  ghost predicate Permitted(l: Lists, a: u32, mask: u64, access: AccessType) {
    match access
    case Write => Denotes(l.white, a) || (mask != 0xFFFF_FFFF_FFFF_FFFF && GreyHolds(l.grey, a, mask))
    case Read => !Denotes(l.black, a)
  }

  /** `isAllowed`, the firmware's check. */
  method IsAllowed(l: Lists, a: u32, mask: u64, access: AccessType, securityEnabled: bool) returns (r: bool)
    requires WellFormedLists(l)
    ensures r <==> !securityEnabled || Permitted(l, a, mask, access)
  {
    r := true;
    if securityEnabled {
      if access == Write {
        r := IsPresent(l.white, a);
        if !r && mask != ALL_BITS {
          r := GreyIsPresent(l.grey, a, mask);
        }
      } else {
        r := IsPresent(l.black, a);
        r := !r;
      }
    }
  }
}
