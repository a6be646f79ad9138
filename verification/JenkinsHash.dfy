/** The trace string hash: `jhash` over bytes, and `jhash2`, its form for whole words.
    32-bit words are numbers below 2^32; sums and differences wrap. */
module JenkinsHash {
  import opened Bytes

  function Plus(x: u32, y: u32): u32 { (x + y) % POW2_32 }

  function Minus(x: u32, y: u32): u32 { (x - y) % POW2_32 }

  function ShiftLeft(x: u32, k: nat): u32
    decreases k
  {
    if k == 0 then x else ShiftLeft(2 * x % POW2_32, k - 1)
  }

  /** Bitwise exclusive or. */
  function Xor(x: nat, y: nat): nat
    decreases x + y
  {
    if x + y == 0 then 0 else 2 * Xor(x / 2, y / 2) + (x + y) % 2
  }

  lemma {:induction false} XorBound(x: nat, y: nat, n: nat)
    requires x < Pow2(n) && y < Pow2(n)
    ensures Xor(x, y) < Pow2(n)
    decreases n
  {
    if x + y > 0 {
      XorBound(x / 2, y / 2, n - 1);
    }
  }

  function XorWord(x: u32, y: u32): u32 {
    Pow2Word();
    XorBound(x, y, 32);
    Xor(x, y)
  }

  lemma Parity(x: nat, m: nat, h: nat)
    ensures var v := 2 * h + (x + m) % 2; v / 2 == h && (v + m) % 2 == x % 2
  {
  }

  lemma {:induction false} XorTwice(x: nat, m: nat)
    ensures Xor(Xor(x, m), m) == x
    decreases x + m
  {
    if x + m > 0 {
      var h := Xor(x / 2, m / 2);
      XorTwice(x / 2, m / 2);
      Parity(x, m, h);
      if Xor(x, m) + m > 0 {
        assert Xor(Xor(x, m), m) == 2 * Xor(h, m / 2) + x % 2;
      }
    }
  }

  lemma {:induction false} XorStep(x: nat, y: nat)
    ensures Xor(x, y) / 2 == Xor(x / 2, y / 2) && Xor(x, y) % 2 == (x + y) % 2
  {
    if x + y > 0 {
      var h, b := Xor(x / 2, y / 2), (x + y) % 2;
      assert (2 * h + b) / 2 == h && (2 * h + b) % 2 == b;
    }
  }

  lemma {:induction false} HigherBit(z: nat, x: nat, y: nat, i: nat)
    requires BitSet(z / 2, i) <==> BitSet(x / 2, i) != BitSet(y / 2, i)
    ensures BitSet(z, i + 1) <==> BitSet(x, i + 1) != BitSet(y, i + 1)
  {
    BitAbove(x, i);
    BitAbove(y, i);
    BitAbove(z, i);
  }

  lemma {:induction false} LowestBit(z: nat, x: nat, y: nat)
    requires z % 2 == (x + y) % 2
    ensures BitSet(z, 0) <==> BitSet(x, 0) != BitSet(y, 0)
  {
    BitAbove(x, 0);
    BitAbove(y, 0);
    BitAbove(z, 0);
  }

  /** It sets the bits in which the two differ. */
  lemma {:induction false} XorBits(x: nat, y: nat, i: nat)
    ensures BitSet(Xor(x, y), i) <==> BitSet(x, i) != BitSet(y, i)
    decreases i
  {
    XorStep(x, y);
    if i > 0 {
      XorBits(x / 2, y / 2, i - 1);
      HigherBit(Xor(x, y), x, y, i - 1);
    } else {
      LowestBit(Xor(x, y), x, y);
    }
  }

  lemma XorWordBits(x: u32, y: u32, i: nat)
    ensures BitSet(XorWord(x, y), i) <==> BitSet(x, i) != BitSet(y, i)
  {
    XorBits(x, y, i);
  }

  /** A left shift multiplies, and drops what does not fit the word. */
  lemma {:induction false} ShiftLeftIs(x: u32, k: nat)
    ensures ShiftLeft(x, k) == x * Pow2(k) % POW2_32
    decreases k
  {
    if k > 0 {
      ShiftLeftIs(2 * x % POW2_32, k - 1);
      DropInner(2 * x, Pow2(k - 1), POW2_32);
      Doubled(x, Pow2(k - 1));
    }
  }

  lemma Doubled(x: nat, p: nat)
    ensures 2 * x * p == x * (2 * p)
  {
  }

  lemma DropInner(a: nat, p: nat, m: nat)
    requires m > 0
    ensures a % m * p % m == a * p % m
  {
    var q, r := a / m, a % m;
    assert a == m * q + r;
    Distribute(m, q, r, p);
    DropMultiple(r * p, m, q * p);
  }

  lemma Distribute(m: nat, q: nat, r: nat, p: nat)
    ensures (m * q + r) * p == m * (q * p) + r * p
  {
  }

  lemma {:induction false} DropMultiple(v: nat, m: nat, q: nat)
    requires m > 0
    ensures (m * q + v) % m == v % m
  {
    var d, r := v / m, v % m;
    assert m * q + v == m * (q + d) + r;
    DivUnique(m * q + v, m, q + d, r);
  }

  // ----- the mixing step and its inverse

  /** The three running words of the hash. */
  datatype Triple = Triple(a: u32, b: u32, c: u32)

  const GOLDEN_RATIO: u32 := 0x9e3779b9

  function Sub(x: u32, y: u32, z: u32, m: u32): u32 { XorWord(Minus(Minus(x, y), z), m) }

  function Add(x: u32, y: u32, z: u32, m: u32): u32 { Plus(Plus(XorWord(x, m), z), y) }

  /** One of the three rounds of the mix, with its three shift distances. */
  function Round(t: Triple, i: nat, j: nat, k: nat): Triple {
    var a := Sub(t.a, t.b, t.c, ShiftRight(t.c, i));
    var b := Sub(t.b, t.c, a, ShiftLeft(a, j));
    var c := Sub(t.c, a, b, ShiftRight(b, k));
    Triple(a, b, c)
  }

  function Unround(t: Triple, i: nat, j: nat, k: nat): Triple {
    var c := Add(t.c, t.a, t.b, ShiftRight(t.b, k));
    var b := Add(t.b, c, t.a, ShiftLeft(t.a, j));
    var a := Add(t.a, b, c, ShiftRight(c, i));
    Triple(a, b, c)
  }

  function Mix(t: Triple): Triple {
    Round(Round(Round(t, 13, 8, 13), 12, 16, 5), 3, 10, 15)
  }

  function Unmix(t: Triple): Triple {
    Unround(Unround(Unround(t, 3, 10, 15), 12, 16, 5), 13, 8, 13)
  }

  lemma PlusMinus(x: u32, y: u32)
    ensures Plus(Minus(x, y), y) == x && Minus(Plus(x, y), y) == x
  {
  }

  lemma Undo(x: u32, y: u32, z: u32, m: u32)
    ensures Add(Sub(x, y, z, m), y, z, m) == x
  {
    XorTwice(Minus(Minus(x, y), z), m);
    PlusMinus(Minus(x, y), z);
    PlusMinus(x, y);
  }

  lemma Redo(x: u32, y: u32, z: u32, m: u32)
    ensures Sub(Add(x, y, z, m), y, z, m) == x
  {
    PlusMinus(Plus(XorWord(x, m), z), y);
    PlusMinus(XorWord(x, m), z);
    XorTwice(x, m);
  }

  lemma RoundInvertible(t: Triple, i: nat, j: nat, k: nat)
    ensures Unround(Round(t, i, j, k), i, j, k) == t
    ensures Round(Unround(t, i, j, k), i, j, k) == t
  {
    var r := Round(t, i, j, k);
    Undo(t.a, t.b, t.c, ShiftRight(t.c, i));
    Undo(t.b, t.c, r.a, ShiftLeft(r.a, j));
    Undo(t.c, r.a, r.b, ShiftRight(r.b, k));
    var u := Unround(t, i, j, k);
    Redo(t.c, t.a, t.b, ShiftRight(t.b, k));
    Redo(t.b, u.c, t.a, ShiftLeft(t.a, j));
    Redo(t.a, u.b, u.c, ShiftRight(u.c, i));
  }

  /** Mixing is a permutation of the 2^96 states: `Unmix` undoes it on both sides. */
  lemma MixInvertible(t: Triple)
    ensures Unmix(Mix(t)) == t && Mix(Unmix(t)) == t
  {
    var r := Round(t, 13, 8, 13);
    var s := Round(r, 12, 16, 5);
    RoundInvertible(t, 13, 8, 13);
    RoundInvertible(r, 12, 16, 5);
    RoundInvertible(s, 3, 10, 15);
    var v := Unround(t, 3, 10, 15);
    var w := Unround(v, 12, 16, 5);
    RoundInvertible(t, 3, 10, 15);
    RoundInvertible(v, 12, 16, 5);
    RoundInvertible(w, 13, 8, 13);
  }

  // ----- the two hashes

  /** Bytes past the end count as zero. */
  function ByteAt(key: seq<byte>, i: nat): (r: int)
    ensures 0 <= r < 256
  {
    if i < |key| then key[i] as int else 0
  }

  function LeWord(key: seq<byte>, i: nat): u32 {
    ByteAt(key, i) + ByteAt(key, i + 1) * 0x100 + ByteAt(key, i + 2) * 0x1_0000 + ByteAt(key, i + 3) * 0x100_0000
  }

  /** The last three bytes go above the low byte of the third word. */
  function TopBytes(key: seq<byte>, i: nat): u32 {
    ByteAt(key, i) * 0x100 + ByteAt(key, i + 1) * 0x1_0000 + ByteAt(key, i + 2) * 0x100_0000
  }

  function AddBlock(t: Triple, x: u32, y: u32, z: u32): Triple {
    Triple(Plus(t.a, x), Plus(t.b, y), Plus(t.c, z))
  }

  function Start(initval: u32): Triple { Triple(GOLDEN_RATIO, GOLDEN_RATIO, initval) }

  /** Adds three words to the state and mixes. The hashes take the mixing as a parameter;
      the code's is `Mix`. */
  type Step = (Triple, u32, u32, u32) -> Triple

  function AddThen(mix: Triple -> Triple): Step {
    (t: Triple, x: u32, y: u32, z: u32) => mix(AddBlock(t, x, y, z))
  }

  /** The words of a key, by number; past the end they are zero. */
  type KeyWords = nat -> u32

  /** The whole three-word blocks from word `i` on, taken in one after the other. */
  function Absorb(step: Step, w: KeyWords, i: nat, n: nat, t: Triple): Triple
    decreases n - i
  {
    if n - i < 3 then t else Absorb(step, w, i + 3, n, step(t, w(i), w(i + 1), w(i + 2)))
  }

  /** A key of `n` whole words, closed by the two words that are left and by `last`. */
  function Hash(step: Step, w: KeyWords, n: nat, last: u32, initval: u32): u32 {
    var t := Absorb(step, w, 0, n, Start(initval));
    var m := n / 3 * 3;
    step(t, w(m), w(m + 1), last).c
  }

  function ByteWords(key: seq<byte>): KeyWords { (i: nat) => LeWord(key, 4 * i) }

  /** The third closing word of a byte string: its length and its last three bytes. */
  function LastOfBytes(key: seq<byte>, k: nat): u32 {
    LengthAnd(|key|, TopBytes(key, k + 8))
  }

  function LengthAnd(length: nat, top: u32): u32 { Plus(length % POW2_32, top) }

  function HashBytes(step: Step, key: seq<byte>, initval: u32): u32 {
    Hash(step, ByteWords(key), |key| / 4, LastOfBytes(key, |key| / 12 * 12), initval)
  }

  function WordAt(k: seq<u32>, i: nat): u32 { if i < |k| then k[i] else 0 }

  function WordsOf(k: seq<u32>): KeyWords { (i: nat) => WordAt(k, i) }

  function HashWords(step: Step, k: seq<u32>, initval: u32): u32 {
    Hash(step, WordsOf(k), |k|, 4 * |k| % POW2_32, initval)
  }

  // ----- the word form is the byte form

  lemma {:induction false} AbsorbCongruent(step: Step, v: KeyWords, w: KeyWords, i: nat, n: nat, t: Triple)
    requires forall j: nat :: j < n ==> v(j) == w(j)
    ensures Absorb(step, v, i, n, t) == Absorb(step, w, i, n, t)
    decreases n - i
  {
    if n - i >= 3 {
      AbsorbCongruent(step, v, w, i + 3, n, step(t, v(i), v(i + 1), v(i + 2)));
    }
  }

  function LeByte(w: u32, j: nat): byte
    requires j < 4
  {
    (match j
     case 0 => w % 0x100
     case 1 => w / 0x100 % 0x100
     case 2 => w / 0x1_0000 % 0x100
     case 3 => w / 0x100_0000) as byte
  }

  /** The words as they lie in little-endian memory. */
  function LeBytes(k: seq<u32>): seq<byte> {
    seq(4 * |k|, i requires 0 <= i < 4 * |k| => LeByte(k[i / 4], i % 4))
  }

  lemma LeDigits(w: u32)
    ensures w == w % 0x100 + w / 0x100 % 0x100 * 0x100 + w / 0x1_0000 % 0x100 * 0x1_0000 + w / 0x100_0000 * 0x100_0000
  {
    var q := w / 0x100;
    assert w == w % 0x100 + q * 0x100;
    assert q == q % 0x100 + w / 0x1_0000 * 0x100;
    var r := w / 0x1_0000;
    assert r == r % 0x100 + w / 0x100_0000 * 0x100;
  }

  lemma LeWordOfBytes(k: seq<u32>, i: nat)
    ensures LeWord(LeBytes(k), 4 * i) == WordAt(k, i)
  {
    if i < |k| {
      LeDigits(k[i]);
    }
  }

  lemma LastAgrees(k: seq<u32>)
    ensures LastOfBytes(LeBytes(k), 4 * |k| / 12 * 12) == 4 * |k| % POW2_32
  {
    assert TopBytes(LeBytes(k), 4 * |k| / 12 * 12 + 8) == 0;
  }

  lemma HashCongruent(step: Step, v: KeyWords, w: KeyWords, n: nat, last: u32, initval: u32)
    requires forall j: nat :: v(j) == w(j)
    ensures Hash(step, v, n, last, initval) == Hash(step, w, n, last, initval)
  {
    AbsorbCongruent(step, v, w, 0, n, Start(initval));
  }

  lemma KeysAgree(k: seq<u32>)
    ensures forall j: nat :: WordsOf(k)(j) == ByteWords(LeBytes(k))(j)
  {
    forall j: nat
      ensures WordsOf(k)(j) == ByteWords(LeBytes(k))(j)
    {
      LeWordOfBytes(k, j);
    }
  }

  lemma SameWordsSameHash(step: Step, key: seq<byte>, k: seq<u32>, initval: u32)
    requires forall j: nat :: WordsOf(k)(j) == ByteWords(key)(j)
    requires |key| == 4 * |k| && LastOfBytes(key, |key| / 12 * 12) == 4 * |k| % POW2_32
    ensures HashWords(step, k, initval) == HashBytes(step, key, initval)
  {
    HashCongruent(step, WordsOf(k), ByteWords(key), |k|, 4 * |k| % POW2_32, initval);
  }

  /** On whole words, `jhash2` computes what `jhash` computes on their bytes. */
  lemma WordsHashAsBytes(step: Step, k: seq<u32>, initval: u32)
    ensures HashWords(step, k, initval) == HashBytes(step, LeBytes(k), initval)
  {
    KeysAgree(k);
    LastAgrees(k);
    SameWordsSameHash(step, LeBytes(k), k, initval);
  }

  // ----- the code

  lemma PlusFour(x: u32, p: u32, q: u32, r: u32, s: u32)
    requires p + q + r + s < POW2_32
    ensures Plus(Plus(Plus(Plus(x, p), q), r), s) == Plus(x, p + q + r + s)
  {
    PlusTwo(x, p, q);
    PlusTwo(x, p + q, r);
    PlusTwo(x, p + q + r, s);
  }

  lemma PlusTwo(x: u32, p: u32, q: u32)
    requires p + q < POW2_32
    ensures Plus(Plus(x, p), q) == Plus(x, p + q)
  {
  }

  /** One case of the closing switch: adds a byte of the key, if there is one at `i`. */
  method AddByte(key: seq<byte>, i: nat, scale: int, x: u32) returns (r: u32)
    requires 0 < scale <= 0x100_0000
    ensures 0 <= ByteAt(key, i) * scale < POW2_32 && r == Plus(x, ByteAt(key, i) * scale)
  {
    r := if i < |key| then Plus(x, key[i] as int * scale) else x;
  }

  /** The cases that feed one word of the state; they fall through, highest byte first. */
  method AddUpTo4(key: seq<byte>, i: nat, x: u32) returns (r: u32)
    ensures r == Plus(x, LeWord(key, i))
  {
    r := AddByte(key, i + 3, 0x100_0000, x);
    r := AddByte(key, i + 2, 0x1_0000, r);
    r := AddByte(key, i + 1, 0x100, r);
    r := AddByte(key, i, 1, r);
    PlusFour(x, ByteAt(key, i + 3) * 0x100_0000, ByteAt(key, i + 2) * 0x1_0000, ByteAt(key, i + 1) * 0x100, ByteAt(key, i));
  }

  method AddUpTo3(key: seq<byte>, i: nat, x: u32) returns (r: u32)
    ensures r == Plus(x, TopBytes(key, i))
  {
    r := AddByte(key, i + 2, 0x100_0000, x);
    r := AddByte(key, i + 1, 0x1_0000, r);
    r := AddByte(key, i, 0x100, r);
    PlusFour(x, ByteAt(key, i + 2) * 0x100_0000, ByteAt(key, i + 1) * 0x1_0000, ByteAt(key, i) * 0x100, 0);
  }

  lemma PlusAssociative(x: u32, y: u32, z: u32)
    ensures Plus(Plus(x, y), z) == Plus(x, Plus(y, z))
  {
    ModInner(x + y, z);
    ModInner(y + z, x);
  }

  lemma ModInner(a: nat, b: nat)
    ensures (a % POW2_32 + b) % POW2_32 == (a + b) % POW2_32
  {
    var q := a / POW2_32;
    assert a + b == a % POW2_32 + b + POW2_32 * q;
  }

  /** The main loop of `jhash`: twelve bytes at a time, read as little-endian words. */
  method AbsorbBytes(step: Step, w: KeyWords, length: nat, initval: u32) returns (t: Triple, k: nat)
    ensures k == length / 12 * 12
    ensures t == Absorb(step, w, 0, length / 4, Start(initval))
  {
    ghost var n := length / 4;
    var len := length;
    t, k := Start(initval), 0;
    ghost var i := 0;
    while len >= 12
      invariant 0 <= len && k + len == length && k == 4 * i && i % 3 == 0
      invariant Absorb(step, w, i, n, t) == Absorb(step, w, 0, n, Start(initval))
    {
      BlockLeft(length, len, k, i);
      t := step(t, w(k / 4), w(k / 4 + 1), w(k / 4 + 2));
      k := k + 12;
      len := len - 12;
      i := i + 3;
    }
    NoBlockLeft(length, len, k, i);
  }

  /** While twelve bytes are left, so are three words. */
  lemma BlockLeft(length: nat, len: nat, k: nat, i: nat)
    requires len >= 12 && k + len == length && k == 4 * i
    ensures length / 4 - i >= 3 && k / 4 == i
  {
  }

  lemma NoBlockLeft(length: nat, len: nat, k: nat, i: nat)
    requires len < 12 && k + len == length && k == 4 * i && i % 3 == 0
    ensures length / 4 - i < 3 && k == length / 12 * 12
  {
    assert k == 12 * (i / 3);
  }

  method CloseThird(key: seq<byte>, k: nat, x: u32) returns (r: u32)
    requires |key| < POW2_32
    ensures r == Plus(x, LastOfBytes(key, k))
  {
    var c := Plus(x, |key|);
    r := AddUpTo3(key, k + 8, c);
    ghost var top, last := TopBytes(key, k + 8), LastOfBytes(key, k);
    LengthFits(|key|, top);
    ThirdWord(x, |key|, top, c, r, last);
  }

  lemma LengthFits(length: u32, top: u32)
    ensures LengthAnd(length, top) == Plus(length, top)
  {
  }

  lemma ThirdWord(x: u32, length: u32, top: u32, c: u32, r: u32, last: u32)
    requires c == Plus(x, length) && r == Plus(c, top) && last == Plus(length, top)
    ensures r == Plus(x, last)
  {
    PlusAssociative(x, length, top);
  }

  /** The end of `jhash`: the length, then the bytes that are left. */
  method CloseBytes(key: seq<byte>, k: nat, t: Triple) returns (r: Triple)
    requires |key| < POW2_32
    ensures r == AddBlock(t, LeWord(key, k), LeWord(key, k + 4), LastOfBytes(key, k))
  {
    var a := AddUpTo4(key, k, t.a);
    var b := AddUpTo4(key, k + 4, t.b);
    var c := CloseThird(key, k, t.c);
    r := Triple(a, b, c);
  }

  lemma ByteWordAt(key: seq<byte>, k: nat)
    requires k == |key| / 12 * 12
    ensures var m := |key| / 4 / 3 * 3;
      ByteWords(key)(m) == LeWord(key, k) && ByteWords(key)(m + 1) == LeWord(key, k + 4)
  {
    BlocksOfWords(|key|);
  }

  lemma BlocksOfWords(length: nat)
    ensures length / 4 / 3 * 3 * 4 == length / 12 * 12
  {
    var q, r := length / 12, length % 12;
    assert length / 4 == 3 * q + r / 4;
    assert (3 * q + r / 4) / 3 == q;
  }

  lemma HashUnfold(mix: Triple -> Triple, w: KeyWords, n: nat, last: u32, initval: u32, x: u32, y: u32)
    requires x == w(n / 3 * 3) && y == w(n / 3 * 3 + 1)
    ensures Hash(AddThen(mix), w, n, last, initval)
         == mix(AddBlock(Absorb(AddThen(mix), w, 0, n, Start(initval)), x, y, last)).c
  {
  }

  /** `jhash`, for any mixing. */
  method Jhash(mix: Triple -> Triple, key: seq<byte>, initval: u32) returns (h: u32)
    requires |key| < POW2_32
    ensures h == HashBytes(AddThen(mix), key, initval)
  {
    var t, k := AbsorbBytes(AddThen(mix), ByteWords(key), |key|, initval);
    var r := CloseBytes(key, k, t);
    ByteWordAt(key, k);
    HashUnfold(mix, ByteWords(key), |key| / 4, LastOfBytes(key, k), initval, LeWord(key, k), LeWord(key, k + 4));
    h := mix(r).c;
  }

  method AbsorbWords(step: Step, k: seq<u32>, initval: u32) returns (t: Triple, i: nat)
    ensures i == |k| / 3 * 3
    ensures t == Absorb(step, WordsOf(k), 0, |k|, Start(initval))
  {
    ghost var w := WordsOf(k);
    var len := |k|;
    t, i := Start(initval), 0;
    while len >= 3
      invariant 0 <= len && i + len == |k| && i % 3 == 0
      invariant Absorb(step, w, i, |k|, t) == Absorb(step, w, 0, |k|, Start(initval))
    {
      t := step(t, k[i], k[i + 1], k[i + 2]);
      i := i + 3;
      len := len - 3;
    }
  }

  /** `jhash2`, for any mixing: three words at a time, then what is left. */
  method Jhash2(mix: Triple -> Triple, k: seq<u32>, initval: u32) returns (h: u32)
    requires 4 * |k| < POW2_32
    ensures h == HashWords(AddThen(mix), k, initval)
  {
    var t, i := AbsorbWords(AddThen(mix), k, initval);
    var a, b, c := t.a, t.b, Plus(t.c, 4 * |k|);
    if |k| - i >= 2 { b := Plus(b, k[i + 1]); }
    if |k| - i >= 1 { a := Plus(a, k[i]); }
    assert a == Plus(t.a, WordAt(k, i)) && b == Plus(t.b, WordAt(k, i + 1));
    HashUnfold(mix, WordsOf(k), |k|, 4 * |k| % POW2_32, initval, WordAt(k, i), WordAt(k, i + 1));
    h := mix(Triple(a, b, c)).c;
  }

  /** The two functions with their own mixing: `h` by bytes and `h2` by words agree. */
  method HashBothWays(k: seq<u32>, initval: u32) returns (h: u32, h2: u32)
    requires 4 * |k| < POW2_32
    ensures h == h2 == HashWords(AddThen(Mix), k, initval)
  {
    h := Jhash(Mix, LeBytes(k), initval);
    h2 := Jhash2(Mix, k, initval);
    WordsHashAsBytes(AddThen(Mix), k, initval);
  }

  // ----- every byte of the key counts

  /** The number whose little-endian bytes are `s`. */
  function LeVal(s: seq<byte>): nat {
    if s == [] then 0 else s[0] as nat + 0x100 * LeVal(s[1..])
  }

  /** The key from byte `k` on, followed by zeros. */
  function Tail(key: seq<byte>, k: nat): seq<byte>
    requires k <= |key|
  {
    key[k..] + [0, 0, 0, 0, 0, 0, 0, 0, 0, 0, 0, 0]
  }

  lemma TailByte(key: seq<byte>, k: nat, j: nat)
    requires k <= |key| && j < 12
    ensures |Tail(key, k)| >= 12 && Tail(key, k)[j] as int == ByteAt(key, k + j)
  {
  }

  lemma LeFour(a: byte, b: byte, c: byte, d: byte)
    ensures LeVal([a, b, c, d]) == a as nat + 0x100 * b as nat + 0x1_0000 * c as nat + 0x100_0000 * d as nat
    ensures LeVal([a, b, c]) == a as nat + 0x100 * b as nat + 0x1_0000 * c as nat
  {
    LeThree(b, c, d);
    LeThree(a, b, c);
    assert [a, b, c, d][1..] == [b, c, d];
  }

  lemma LeThree(a: byte, b: byte, c: byte)
    ensures LeVal([a, b, c]) == a as nat + 0x100 * b as nat + 0x1_0000 * c as nat
  {
    assert LeVal([]) == 0;
    assert [c][1..] == [];
    assert LeVal([c]) == c as nat;
    assert [b, c][1..] == [c];
    assert LeVal([b, c]) == b as nat + 0x100 * c as nat;
    assert [a, b, c][1..] == [b, c];
  }

  lemma WordOfTail(key: seq<byte>, k: nat, j: nat)
    requires k <= |key| && j + 4 <= 12
    ensures |Tail(key, k)| >= 12 && LeWord(key, k + j) == LeVal(Tail(key, k)[j..j + 4])
  {
    var z := Tail(key, k);
    TailByte(key, k, j);
    TailByte(key, k, j + 1);
    TailByte(key, k, j + 2);
    TailByte(key, k, j + 3);
    LeFour(z[j], z[j + 1], z[j + 2], z[j + 3]);
    assert z[j..j + 4] == [z[j], z[j + 1], z[j + 2], z[j + 3]];
  }

  lemma TopOfTail(key: seq<byte>, k: nat)
    requires k <= |key|
    ensures |Tail(key, k)| >= 12 && TopBytes(key, k + 8) == 0x100 * LeVal(Tail(key, k)[8..11])
  {
    var z := Tail(key, k);
    TailByte(key, k, 8);
    TailByte(key, k, 9);
    TailByte(key, k, 10);
    LeFour(z[8], z[9], z[10], 0);
    assert z[8..11] == [z[8], z[9], z[10]];
  }

  /** The state of `jhash` after the whole blocks of a key. */
  function AfterBlocks(mix: Triple -> Triple, key: seq<byte>, initval: u32): Triple {
    Absorb(AddThen(mix), ByteWords(key), 0, |key| / 4, Start(initval))
  }

  /** What enters the last mix. */
  function LastTriple(mix: Triple -> Triple, key: seq<byte>, initval: u32): Triple {
    var k := |key| / 12 * 12;
    AddBlock(AfterBlocks(mix, key, initval), LeWord(key, k), LeWord(key, k + 4), LastOfBytes(key, k))
  }

  /** The words left after the blocks, as numbers. */
  lemma LastWords(key: seq<byte>, k: nat)
    requires |key| < POW2_32 && k <= |key|
    ensures var z := Tail(key, k);
      && |z| >= 12 && LeWord(key, k) == LeVal(z[0..4]) && LeWord(key, k + 4) == LeVal(z[4..8])
      && 0x100 * LeVal(z[8..11]) < POW2_32 && LastOfBytes(key, k) == Plus(|key|, 0x100 * LeVal(z[8..11]))
  {
    WordOfTail(key, k, 0);
    WordOfTail(key, k, 4);
    TopOfTail(key, k);
    LengthFits(|key|, TopBytes(key, k + 8));
  }

  /** The hash of a key of any length: after the whole blocks, the bytes left, followed by
      zeros, are added as two little-endian words, and three more bytes above the length. */
  lemma HashOfKey(mix: Triple -> Triple, key: seq<byte>, initval: u32)
    requires |key| < POW2_32
    ensures HashBytes(AddThen(mix), key, initval) == mix(LastTriple(mix, key, initval)).c
    ensures var t, z := AfterBlocks(mix, key, initval), Tail(key, |key| / 12 * 12);
      && |z| >= 12 && LeVal(z[0..4]) < POW2_32 && LeVal(z[4..8]) < POW2_32 && 0x100 * LeVal(z[8..11]) < POW2_32
      && LastTriple(mix, key, initval)
           == AddBlock(t, LeVal(z[0..4]), LeVal(z[4..8]), (|key| + 0x100 * LeVal(z[8..11])) % POW2_32)
  {
    var k := |key| / 12 * 12;
    ByteWordAt(key, k);
    HashUnfold(mix, ByteWords(key), |key| / 4, LastOfBytes(key, k), initval, LeWord(key, k), LeWord(key, k + 4));
    LastWords(key, k);
    TopOfTail(key, k);
  }

  /** A block is three little-endian words of the key. */
  lemma BlockOfKey(key: seq<byte>, i: nat)
    requires 4 * i + 4 <= |key|
    ensures ByteWords(key)(i) == LeVal(key[4 * i..4 * i + 4])
  {
    var k := 4 * i;
    WordOfTail(key, k, 0);
    assert Tail(key, k)[0..4] == key[k..k + 4];
  }

  lemma PlusInjective(x: u32, y: u32, z: u32)
    requires Plus(x, y) == Plus(x, z)
    ensures y == z
  {
    PlusMinus(x, y);
    PlusMinus(x, z);
  }

  lemma {:induction false} LeInjective(a: seq<byte>, b: seq<byte>)
    requires |a| == |b| && LeVal(a) == LeVal(b)
    ensures a == b
  {
    if a != [] {
      var x, y := LeVal(a[1..]), LeVal(b[1..]);
      assert a[0] == b[0] && x == y;
      LeInjective(a[1..], b[1..]);
      assert a == [a[0]] + a[1..] && b == [b[0]] + b[1..];
    }
  }

  /** Only whole blocks are taken in. */
  lemma {:induction false} BlocksCongruent(step: Step, v: KeyWords, w: KeyWords, i: nat, n: nat, t: Triple)
    requires i % 3 == 0 && forall j: nat :: j < n / 3 * 3 ==> v(j) == w(j)
    ensures Absorb(step, v, i, n, t) == Absorb(step, w, i, n, t)
    decreases n - i
  {
    if n - i >= 3 {
      BlockBelow(i, n);
      BlocksCongruent(step, v, w, i + 3, n, step(t, v(i), v(i + 1), v(i + 2)));
    }
  }

  lemma BlockBelow(i: nat, n: nat)
    requires i % 3 == 0 && n - i >= 3
    ensures i + 3 <= n / 3 * 3
  {
    var q := i / 3;
    assert i == 3 * q && n / 3 >= q + 1;
  }

  lemma SameBlocks(mix: Triple -> Triple, a: seq<byte>, b: seq<byte>, k: nat, initval: u32)
    requires |a| == |b| && k == |a| / 12 * 12 && a[..k] == b[..k]
    ensures AfterBlocks(mix, a, initval) == AfterBlocks(mix, b, initval)
  {
    var v, w := ByteWords(a), ByteWords(b);
    BlocksOfWords(|a|);
    forall j: nat | j < |a| / 4 / 3 * 3
      ensures v(j) == w(j)
    {
      SameWord(a, b, k, 4 * j);
    }
    BlocksCongruent(AddThen(mix), v, w, 0, |a| / 4, Start(initval));
  }

  lemma SameWord(a: seq<byte>, b: seq<byte>, k: nat, i: nat)
    requires i + 4 <= k <= |a| == |b| && a[..k] == b[..k]
    ensures LeWord(a, i) == LeWord(b, i)
  {
    assert a[i] == a[..k][i] && a[i + 1] == a[..k][i + 1] && a[i + 2] == a[..k][i + 2] && a[i + 3] == a[..k][i + 3];
    assert b[i] == b[..k][i] && b[i + 1] == b[..k][i + 1] && b[i + 2] == b[..k][i + 2] && b[i + 3] == b[..k][i + 3];
  }

  /** Different tails of fewer than twelve bytes differ in one of the three parts. */
  lemma PartsDiffer(a: seq<byte>, b: seq<byte>, k: nat)
    requires k <= |a| == |b| < k + 12 && a != b && a[..k] == b[..k]
    ensures var y, z := Tail(a, k), Tail(b, k);
      |y| >= 12 && |z| >= 12 && (y[0..4] != z[0..4] || y[4..8] != z[4..8] || y[8..11] != z[8..11])
  {
    var y, z := Tail(a, k), Tail(b, k);
    if y[0..4] == z[0..4] && y[4..8] == z[4..8] && y[8..11] == z[8..11] {
      forall j | 0 <= j < |a|
        ensures a[j] == b[j]
      {
        if j < k {
          assert a[j] == a[..k][j] && b[j] == b[..k][j];
        } else {
          PartAt(y, z, j - k);
        }
      }
    }
  }

  lemma PartAt(y: seq<byte>, z: seq<byte>, j: nat)
    requires |y| >= 12 && |z| >= 12 && y[0..4] == z[0..4] && y[4..8] == z[4..8] && y[8..11] == z[8..11] && j < 11
    ensures y[j] == z[j]
  {
    if j < 4 {
      assert y[j] == y[0..4][j] && z[j] == z[0..4][j];
    } else if j < 8 {
      assert y[j] == y[4..8][j - 4] && z[j] == z[4..8][j - 4];
    } else {
      assert y[j] == y[8..11][j - 8] && z[j] == z[8..11][j - 8];
    }
  }

  lemma TriplesDiffer(t: Triple, n: u32, a: seq<byte>, b: seq<byte>)
    requires |a| >= 12 && |b| >= 12 && (a[0..4] != b[0..4] || a[4..8] != b[4..8] || a[8..11] != b[8..11])
    requires LeVal(a[0..4]) < POW2_32 && LeVal(a[4..8]) < POW2_32 && 0x100 * LeVal(a[8..11]) < POW2_32
    requires LeVal(b[0..4]) < POW2_32 && LeVal(b[4..8]) < POW2_32 && 0x100 * LeVal(b[8..11]) < POW2_32
    ensures AddBlock(t, LeVal(a[0..4]), LeVal(a[4..8]), Plus(n, 0x100 * LeVal(a[8..11])))
         != AddBlock(t, LeVal(b[0..4]), LeVal(b[4..8]), Plus(n, 0x100 * LeVal(b[8..11])))
  {
    if a[0..4] != b[0..4] {
      SumsDiffer(t.a, a[0..4], b[0..4], 1);
    } else if a[4..8] != b[4..8] {
      SumsDiffer(t.b, a[4..8], b[4..8], 1);
    } else {
      SumsDiffer(n, a[8..11], b[8..11], 0x100);
      var x, y := Plus(n, 0x100 * LeVal(a[8..11])), Plus(n, 0x100 * LeVal(b[8..11]));
      if Plus(t.c, x) == Plus(t.c, y) {
        PlusInjective(t.c, x, y);
      }
    }
  }

  lemma SumsDiffer(x: u32, a: seq<byte>, b: seq<byte>, scale: nat)
    requires (scale == 1 || scale == 0x100) && |a| == |b| && a != b
    requires scale * LeVal(a) < POW2_32 && scale * LeVal(b) < POW2_32
    ensures Plus(x, scale * LeVal(a)) != Plus(x, scale * LeVal(b))
  {
    var v, w := scale * LeVal(a), scale * LeVal(b);
    if Plus(x, v) == Plus(x, w) {
      PlusInjective(x, v, w);
      LeInjective(a, b);
    }
  }

  lemma Entering(mix: Triple -> Triple, key: seq<byte>, initval: u32, k: nat, t: Triple, z: seq<byte>)
    requires |key| < POW2_32 && k == |key| / 12 * 12 && t == AfterBlocks(mix, key, initval) && z == Tail(key, k)
    ensures |z| >= 12 && LeVal(z[0..4]) < POW2_32 && LeVal(z[4..8]) < POW2_32 && 0x100 * LeVal(z[8..11]) < POW2_32
    ensures LastTriple(mix, key, initval) == AddBlock(t, LeVal(z[0..4]), LeVal(z[4..8]), Plus(|key|, 0x100 * LeVal(z[8..11])))
  {
    LastWords(key, k);
  }

  /** Every byte left after the blocks counts: keys of one length that agree on the blocks and
      differ behind them enter the last mix with different triples, for any mixing. */
  lemma TailCounts(mix: Triple -> Triple, a: seq<byte>, b: seq<byte>, initval: u32)
    requires |a| == |b| < POW2_32 && a != b && a[..|a| / 12 * 12] == b[..|a| / 12 * 12]
    ensures LastTriple(mix, a, initval) != LastTriple(mix, b, initval)
  {
    var k := |a| / 12 * 12;
    var t, y, z := AfterBlocks(mix, a, initval), Tail(a, k), Tail(b, k);
    assert t == AfterBlocks(mix, b, initval) by {
      SameBlocks(mix, a, b, k, initval);
    }
    PartsDiffer(a, b, k);
    Entering(mix, a, initval, k, t, y);
    Entering(mix, b, initval, k, t, z);
    TriplesDiffer(t, |a|, y, z);
  }

  /** The code's own mixing keeps them apart. */
  lemma MixInjective(x: Triple, y: Triple)
    requires x != y
    ensures Mix(x) != Mix(y)
  {
    MixInvertible(x);
    MixInvertible(y);
  }

  lemma {:induction false} OneBlockMore(step: Step, w: KeyWords, i: nat, n: nat, t: Triple)
    requires i % 3 == 0 && n % 3 == 0 && i <= n
    ensures Absorb(step, w, i, n + 3, t) == step(Absorb(step, w, i, n, t), w(n), w(n + 1), w(n + 2))
    decreases n - i
  {
    if i < n {
      OneBlockMore(step, w, i + 3, n, step(t, w(i), w(i + 1), w(i + 2)));
    }
  }

  /** The blocks of a key, one at a time: nothing taken in at first, then the twelve bytes of
      each block as three little-endian words, mixed after each; bytes behind the last block do
      not matter. */
  lemma BlocksAreMixed(mix: Triple -> Triple, key: seq<byte>, q: nat, initval: u32)
    requires 12 * q <= |key| < 12 * q + 12
    ensures q == 0 ==> AfterBlocks(mix, key, initval) == Triple(0x9E37_79B9, 0x9E37_79B9, initval)
    ensures q > 0 ==>
      var p := 12 * q - 12;
      && LeVal(key[p..p + 4]) < POW2_32 && LeVal(key[p + 4..p + 8]) < POW2_32 && LeVal(key[p + 8..p + 12]) < POW2_32
      && AfterBlocks(mix, key, initval)
           == mix(AddBlock(AfterBlocks(mix, key[..p], initval), LeVal(key[p..p + 4]), LeVal(key[p + 4..p + 8]), LeVal(key[p + 8..p + 12])))
  {
    if q > 0 {
      var p, n, w := 12 * q - 12, 3 * (q - 1), ByteWords(key);
      LastBlock(AddThen(mix), key, q, initval);
      FrontBlocks(mix, key, q, initval);
      BlockOfKey(key, n);
      BlockOfKey(key, n + 1);
      BlockOfKey(key, n + 2);
    }
  }

  lemma LastBlock(step: Step, key: seq<byte>, q: nat, initval: u32)
    requires q > 0 && 12 * q <= |key| < 12 * q + 12
    ensures var n, w := 3 * (q - 1), ByteWords(key);
      Absorb(step, w, 0, |key| / 4, Start(initval)) == step(Absorb(step, w, 0, n, Start(initval)), w(n), w(n + 1), w(n + 2))
  {
    var n, w := 3 * (q - 1), ByteWords(key);
    OneBlockMore(step, w, 0, n, Start(initval));
    NoMoreWords(step, w, 0, n + 3, |key| / 4, Start(initval));
  }

  lemma {:induction false} NoMoreWords(step: Step, w: KeyWords, i: nat, n: nat, m: nat, t: Triple)
    requires i % 3 == 0 && n % 3 == 0 && i <= n <= m < n + 3
    ensures Absorb(step, w, i, m, t) == Absorb(step, w, i, n, t)
    decreases n - i
  {
    if i < n {
      NoMoreWords(step, w, i + 3, n, m, step(t, w(i), w(i + 1), w(i + 2)));
    }
  }

  lemma FrontBlocks(mix: Triple -> Triple, key: seq<byte>, q: nat, initval: u32)
    requires q > 0 && 12 * q <= |key| < 12 * q + 12
    ensures var p := 12 * q - 12;
      AfterBlocks(mix, key[..p], initval) == Absorb(AddThen(mix), ByteWords(key), 0, 3 * (q - 1), Start(initval))
  {
    var p, n := 12 * q - 12, 3 * (q - 1);
    var v, w := ByteWords(key[..p]), ByteWords(key);
    assert |key[..p]| / 4 == n;
    forall j: nat | j < n / 3 * 3
      ensures v(j) == w(j)
    {
      FrontWord(key, p, 4 * j);
    }
    BlocksCongruent(AddThen(mix), v, w, 0, n, Start(initval));
  }

  lemma FrontWord(key: seq<byte>, p: nat, i: nat)
    requires i + 4 <= p <= |key|
    ensures LeWord(key[..p], i) == LeWord(key, i)
  {
  }
}
