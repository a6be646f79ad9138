/** Times in the trace converter: from timebase ticks to seconds and nanoseconds, and the
    64-bit times of the entries from their 32-bit stamps. */
module TraceTime {
  import opened Bytes

  const GIGA: nat := 1_000_000_000

  // ----- ticks to seconds and nanoseconds

  function Seconds(ticks: u64, hz: u32): u32
    requires hz > 0
  {
    ticks / hz % POW2_32
  }

  function Remainder(ticks: u64, seconds: u32, hz: u32): u32 { (ticks - seconds * hz) % POW2_32 }

  function Fraction(remainder: u32, hz: u32): u32
    requires hz > 0
  {
    remainder * GIGA / hz % POW2_32
  }

  /** `ppe2fsp_time`: three 32-bit results of 64-bit arithmetic, two of them packed. */
  function FspTime(ticks: u64, hz: u32): u64
    requires hz > 0
  {
    var seconds := Seconds(ticks, hz);
    var nseconds := Fraction(Remainder(ticks, seconds, hz), hz);
    seconds * POW2_32 + nseconds
  }

  /** The time a packed stamp stands for. */
  function Nanoseconds(t: u64): nat { t / POW2_32 * 1_000_000_000 + t % POW2_32 }

  lemma DivSum(q: nat, x: nat, h: nat)
    requires h > 0
    ensures (q * h + x) / h == q + x / h
  {
    var y, z := x / h, x % h;
    assert q * h + x == h * (q + y) + z;
    Quotient(h, q + y, z);
  }

  lemma Quotient(h: nat, q: nat, r: nat)
    requires r < h
    ensures (h * q + r) / h == q
  {
    var p := (h * q + r) / h;
    var s := (h * q + r) % h;
    assert h * p + s == h * q + r;
    if p < q {
      Steps(h, p, q);
    } else if p > q {
      Steps(h, q, p);
    }
  }

  lemma {:induction false} Steps(h: nat, p: nat, q: nat)
    requires p < q
    ensures h * q >= h * p + h
  {
    if p + 1 < q {
      Steps(h, p, q - 1);
    }
    assert h * q == h * (q - 1) + h;
  }

  lemma DivBelow(x: nat, y: nat, h: nat)
    requires h > 0 && x < h * y
    ensures x / h < y
  {
    var p := x / h;
    assert x == h * p + x % h;
    if p > y {
      Steps(h, y, p);
    }
  }

  /** The nanoseconds of `r` ticks short of a second. */
  lemma FractionIs(r: u32, hz: u32)
    requires r < hz
    ensures Fraction(r, hz) == r * GIGA / hz < GIGA
  {
    assert r * GIGA < hz * GIGA;
    DivBelow(r * GIGA, GIGA, hz);
  }

  /** The exact nanoseconds split into whole seconds and a fraction. */
  lemma Exact(ticks: nat, hz: nat)
    requires hz > 0
    ensures ticks * GIGA / hz == ticks / hz * GIGA + ticks % hz * GIGA / hz
  {
    var q, r := ticks / hz, ticks % hz;
    assert ticks * GIGA == (q * GIGA) * hz + r * GIGA;
    DivSum(q * GIGA, r * GIGA, hz);
  }

  lemma Parts(seconds: u32, nseconds: u32)
    ensures (seconds * POW2_32 + nseconds) / POW2_32 == seconds && (seconds * POW2_32 + nseconds) % POW2_32 == nseconds
  {
  }

  lemma RemainderIs(ticks: u64, hz: u32)
    requires hz > 0 && ticks / hz < POW2_32
    ensures Seconds(ticks, hz) == ticks / hz && Remainder(ticks, ticks / hz, hz) == ticks % hz
  {
    var q := ticks / hz;
    assert q % POW2_32 == q;
    assert ticks - q * hz == ticks % hz;
  }

  lemma WhenFits(ticks: u64, hz: u32)
    requires hz > 0 && ticks / hz < POW2_32
    ensures FspTime(ticks, hz) / POW2_32 == ticks / hz
    ensures FspTime(ticks, hz) % POW2_32 == ticks % hz * GIGA / hz < GIGA
  {
    RemainderIs(ticks, hz);
    FractionIs(ticks % hz, hz);
    Parts(Seconds(ticks, hz), Fraction(ticks % hz, hz));
  }

  lemma Verdict(t: u64, q: nat, fraction: nat, exact: nat)
    requires exact == q * GIGA + fraction && t / POW2_32 == q % POW2_32
    requires q < POW2_32 ==> t % POW2_32 == fraction
    ensures Nanoseconds(t) == exact <==> q < POW2_32
  {
    var low, n := q % POW2_32, t % POW2_32;
    if q >= POW2_32 {
      assert low <= q - POW2_32 && n < POW2_32;
    }
  }

  /** The stamp is the exact time in nanoseconds, rounded down, exactly while the seconds
      fit 32 bits; then the nanoseconds stay below a second. */
  lemma TimeIsExact(ticks: u64, hz: u32)
    requires hz > 0
    ensures Nanoseconds(FspTime(ticks, hz)) == ticks * 1_000_000_000 / hz <==> ticks / hz < POW2_32
    ensures ticks / hz < POW2_32 ==> FspTime(ticks, hz) % POW2_32 < 1_000_000_000
  {
    Exact(ticks, hz);
    SecondsOf(ticks, hz);
    if ticks / hz < POW2_32 {
      WhenFits(ticks, hz);
    }
    Verdict(FspTime(ticks, hz), ticks / hz, ticks % hz * GIGA / hz, ticks * GIGA / hz);
  }

  lemma SecondsOf(ticks: u64, hz: u32)
    requires hz > 0
    ensures FspTime(ticks, hz) / POW2_32 == ticks / hz % POW2_32
  {
    var seconds := Seconds(ticks, hz);
    Parts(seconds, Fraction(Remainder(ticks, seconds, hz), hz));
  }

  /** Later ticks never get an earlier stamp. */
  lemma TimeIsMonotone(ticks: u64, later: u64, hz: u32)
    requires hz > 0 && ticks <= later && later / hz < POW2_32
    ensures FspTime(ticks, hz) <= FspTime(later, hz)
  {
    DivMonotone(ticks, later, hz);
    WhenFits(ticks, hz);
    WhenFits(later, hz);
    if ticks / hz == later / hz {
      DivMonotone(ticks % hz * GIGA, later % hz * GIGA, hz);
    }
    PackedOrder(FspTime(ticks, hz), FspTime(later, hz));
  }

  lemma PackedOrder(a: u64, b: u64)
    requires a / POW2_32 < b / POW2_32 || (a / POW2_32 == b / POW2_32 && a % POW2_32 <= b % POW2_32)
    ensures a <= b
  {
  }

  lemma DivMonotone(x: nat, y: nat, h: nat)
    requires h > 0 && x <= y
    ensures x / h <= y / h
    ensures x / h == y / h ==> x % h <= y % h
  {
    var p, q := x / h, y / h;
    assert x == h * p + x % h;
    assert y == h * q + y % h;
    if p > q {
      Steps(h, q, p);
    }
  }

  // ----- 64-bit times from 32-bit stamps, newest to oldest

  /** One step back: a difference larger than `max` means the entries are out of order. */
  function StepTime(time: u64, prev: u32, next: u32, max: u32): u64 {
    var diff := (prev - next) % POW2_32;
    if diff > max then (time + (next - prev) % POW2_32) % POW2_64 else (time - diff) % POW2_64
  }

  function Times(time: u64, prev: u32, stamps: seq<u32>, max: u32): (r: seq<u64>)
    ensures |r| == |stamps|
    decreases |stamps|
  {
    if stamps == [] then []
    else
      var t := StepTime(time, prev, stamps[0], max);
      [t] + Times(t, stamps[0], stamps[1..], max)
  }

  /** The time of the newest entry: bit 28 of the upper word is dropped. */
  function Newest(tbu: u32, stamp: u32): u64 {
    (tbu - tbu / 0x1000_0000 % 2 * 0x1000_0000) * POW2_32 + stamp
  }

  lemma NewestIsTrue(t: u64)
    ensures Newest(t / POW2_32, t % POW2_32) == t - t / 0x1000_0000_0000_0000 % 2 * 0x1000_0000_0000_0000
    ensures Newest(t / POW2_32, t % POW2_32) == t <==> t / 0x1000_0000_0000_0000 % 2 == 0
  {
    var tbu := t / POW2_32;
    assert t / 0x1000_0000_0000_0000 == tbu / 0x1000_0000;
  }

  /** The older entry is at most `max` ticks older, or less than `2^32 - max` newer. */
  predicate InWindow(newer: u64, older: u64, max: u32) {
    var gap := (newer - older) % POW2_64;
    gap <= max || POW2_64 - gap < POW2_32 - max
  }

  /** Without the 64-bit wrap-around that is a condition on the difference. */
  lemma WindowAsDifference(newer: u64, older: u64, max: u32)
    requires -0x8000_0000_0000_0000 <= newer - older < 0x8000_0000_0000_0000
    ensures InWindow(newer, older, max) <==> max - POW2_32 < newer - older <= max
  {
  }

  lemma LowDifference(a: u64, b: u64)
    ensures (a % POW2_32 - b % POW2_32) % POW2_32 == (a - b) % POW2_64 % POW2_32
  {
    var x, y := a / POW2_32, b / POW2_32;
    assert a - b == (a % POW2_32 - b % POW2_32) + POW2_32 * (x - y);
  }

  /** Which of the two branches a gap takes, and when it is then taken at its value. */
  lemma GapCases(gap: u64, back: u64, max: u32)
    requires back == if gap == 0 then 0 else POW2_64 - gap
    ensures gap % POW2_32 > max ==> gap > max && (back == back % POW2_32 <==> POW2_64 - gap < POW2_32 - max)
    ensures gap % POW2_32 <= max ==> (gap == gap % POW2_32 <==> gap <= max || POW2_64 - gap < POW2_32 - max)
  {
    var k, d := gap / POW2_32, gap % POW2_32;
    assert gap == POW2_32 * k + d && 0 <= k < POW2_32;
    if d > 0 {
      assert back == POW2_32 * (POW2_32 - 1 - k) + (POW2_32 - d);
      assert back / POW2_32 == POW2_32 - 1 - k && back % POW2_32 == POW2_32 - d;
    }
  }

  /** A step back finds the older time exactly when it lies in the window. */
  lemma StepIsExact(newer: u64, older: u64, max: u32)
    ensures StepTime(newer, newer % POW2_32, older % POW2_32, max) == older <==> InWindow(newer, older, max)
  {
    LowDifference(newer, older);
    LowDifference(older, newer);
    var gap := (newer - older) % POW2_64;
    var back := (older - newer) % POW2_64;
    StepOutcome(newer, older, gap % POW2_32);
    StepOutcome(newer, older, back % POW2_32);
    Opposite(newer - older);
    GapCases(gap, back, max);
  }

  lemma Opposite(d: int)
    ensures (-d) % POW2_64 == if d % POW2_64 == 0 then 0 else POW2_64 - d % POW2_64
  {
  }

  lemma StepOutcome(newer: u64, older: u64, d: nat)
    requires d < POW2_32
    ensures (newer - d) % POW2_64 == older <==> (newer - older) % POW2_64 == d
    ensures (newer + d) % POW2_64 == older <==> (older - newer) % POW2_64 == d
  {
  }

  /** The stamps of true times. */
  function Stamps(times: seq<u64>): (r: seq<u32>)
    ensures |r| == |times|
  {
    seq(|times|, i requires 0 <= i < |times| => times[i] % POW2_32)
  }

  /** Every step from `newest` down `times` lies in the window. */
  predicate AllInWindow(newest: u64, times: seq<u64>, max: u32)
    decreases |times|
  {
    times == [] || (InWindow(newest, times[0], max) && AllInWindow(times[0], times[1..], max))
  }

  /** The walk back recovers every true time exactly when no step leaves the window. */
  lemma {:induction false} TimesAreExact(newest: u64, times: seq<u64>, max: u32)
    ensures Times(newest, newest % POW2_32, Stamps(times), max) == times <==> AllInWindow(newest, times, max)
    decreases |times|
  {
    if times != [] {
      StepIsExact(newest, times[0], max);
      assert Stamps(times)[1..] == Stamps(times[1..]);
      var r := Times(newest, newest % POW2_32, Stamps(times), max);
      if r == times || AllInWindow(newest, times, max) {
        TimesAreExact(times[0], times[1..], max);
        assert r[0] == times[0];
        assert r[1..] == Times(times[0], times[0] % POW2_32, Stamps(times[1..]), max);
        assert times == [times[0]] + times[1..];
      }
    }
  }
}
