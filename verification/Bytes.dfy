/** Integers of fixed width, bytes, and big-endian numbers as the firmware's processor
    stores them. */
module Bytes {
  newtype byte = x: int | 0 <= x < 256

  type u8 = x: int | 0 <= x < 0x100
  type u16 = x: int | 0 <= x < 0x1_0000
  type u32 = x: int | 0 <= x < 0x1_0000_0000
  type u64 = x: int | 0 <= x < 0x1_0000_0000_0000_0000

  const POW2_16: nat := 0x1_0000
  const POW2_32: nat := 0x1_0000_0000
  const POW2_64: nat := 0x1_0000_0000_0000_0000

  function Pow256(n: nat): (r: nat)
    ensures r >= 1
  {
    if n == 0 then 1 else 256 * Pow256(n - 1)
  }

  /** The number whose big-endian bytes are `s`. */
  function BeVal(s: seq<byte>): (v: nat)
    ensures v < Pow256(|s|)
  {
    if s == [] then 0 else BeVal(s[..|s| - 1]) * 256 + s[|s| - 1] as nat
  }

  /** The low `n` bytes of `v`, most significant first. */
  function BeBytes(v: nat, n: nat): (s: seq<byte>)
    ensures |s| == n
    decreases n, v
  {
    if n == 0 then [] else BeBytes(v / 256, n - 1) + [(v % 256) as byte]
  }

  lemma {:induction false} BeRoundTrip(v: nat, n: nat)
    requires v < Pow256(n)
    ensures BeVal(BeBytes(v, n)) == v
    decreases n
  {
    if n > 0 {
      BeRoundTrip(v / 256, n - 1);
      var s := BeBytes(v, n);
      assert s[..n - 1] == BeBytes(v / 256, n - 1);
    }
  }

  lemma LastByte(v: nat, b: byte)
    ensures (v * 256 + b as nat) / 256 == v && ((v * 256 + b as nat) % 256) as byte == b
  {
  }

  lemma {:induction false} BeBytesOfVal(s: seq<byte>)
    ensures BeBytes(BeVal(s), |s|) == s
  {
    if s != [] {
      var front, last := s[..|s| - 1], s[|s| - 1];
      BeBytesOfVal(front);
      LastByte(BeVal(front), last);
      assert s == front + [last];
    }
  }

  lemma ShiftOut(x: int, p: int, y: int, l: int)
    ensures (x * p + y) * 256 + l == x * (256 * p) + (y * 256 + l)
  {
  }

  lemma {:induction false} BeValConcat(a: seq<byte>, b: seq<byte>)
    ensures BeVal(a + b) == BeVal(a) * Pow256(|b|) + BeVal(b)
  {
    if b == [] {
      assert a + b == a;
    } else {
      var c, l := b[..|b| - 1], b[|b| - 1];
      assert (a + b)[..|a + b| - 1] == a + c;
      BeValConcat(a, c);
      ShiftOut(BeVal(a), Pow256(|c|), BeVal(c), l as int);
    }
  }

  /** The two halves of a 64-bit load are the two 32-bit loads. */
  lemma Halves(s: seq<byte>)
    requires |s| == 8
    ensures BeVal(s) / POW2_32 == BeVal(s[..4])
    ensures BeVal(s) % POW2_32 == BeVal(s[4..])
  {
    BeValConcat(s[..4], s[4..]);
    assert s == s[..4] + s[4..];
    assert Pow256(4) == POW2_32;
  }

  function Pow2(n: nat): (r: nat)
    ensures r > 0
  {
    if n == 0 then 1 else 2 * Pow2(n - 1)
  }

  lemma Pow2Eight(n: nat)
    ensures Pow2(n + 8) == 256 * Pow2(n)
  {
    assert Pow2(n + 2) == 4 * Pow2(n) && Pow2(n + 4) == 4 * Pow2(n + 2);
    assert Pow2(n + 6) == 4 * Pow2(n + 4) && Pow2(n + 8) == 4 * Pow2(n + 6);
  }

  lemma Pow2Word()
    ensures Pow2(16) == 0x1_0000 && Pow2(32) == POW2_32
  {
    Pow2Eight(0);
    Pow2Eight(8);
    Pow2Eight(16);
    Pow2Eight(24);
  }

  /** A logical right shift, one bit at a time. */
  function ShiftRight(v: nat, j: nat): (r: nat)
    ensures r <= v
  {
    if j == 0 then v else ShiftRight(v / 2, j - 1)
  }

  lemma {:induction false} ShiftRightIs(v: nat, j: nat)
    ensures ShiftRight(v, j) == v / Pow2(j)
    decreases j
  {
    if j > 0 {
      ShiftRightIs(v / 2, j - 1);
      HalfThen(v, Pow2(j - 1));
    }
  }

  lemma HalfThen(v: nat, p: nat)
    requires p > 0
    ensures v / 2 / p == v / (2 * p)
  {
    var q, r := v / 2 / p, v / 2 % p;
    var b := v % 2;
    assert v == 2 * (v / 2) + b && v / 2 == p * q + r;
    assert v == (2 * p) * q + (2 * r + b);
    DivUnique(v, 2 * p, q, 2 * r + b);
  }

  lemma DivUnique(v: nat, d: nat, q: nat, r: nat)
    requires r < d && v == d * q + r
    ensures v / d == q
  {
    var q', r' := v / d, v % d;
    assert v == d * q' + r';
    if q < q' {
      assert d * q' == d * q + d * (q' - q);
      AtLeast(d, q' - q);
    } else if q' < q {
      assert d * q == d * q' + d * (q - q');
      AtLeast(d, q - q');
    }
  }

  lemma AtLeast(d: nat, k: nat)
    requires k > 0
    ensures d * k >= d
  {
    assert d * k == d * (k - 1) + d;
  }

  predicate BitSet(v: nat, i: nat) { ShiftRight(v, i) % 2 == 1 }

  lemma {:induction false} BitAbove(v: nat, i: nat)
    ensures BitSet(v, i + 1) <==> BitSet(v / 2, i)
    ensures BitSet(v, 0) <==> v % 2 == 1
  {
  }

  ghost predicate Distinct<T>(s: seq<T>) {
    forall i, j :: 0 <= i < j < |s| ==> s[i] != s[j]
  }
}
