/** `decompress`: unpacks a compressed base image into a buffer, reading the
    compressed form through eight-byte loads only. */
module Decompression {
  import opened Bytes
  import opened CompressedImage

  // ----- what the unpacker makes of any memory

  /** What the 64-bit size field is taken for, in 32-bit arithmetic: so many bitmap words, the
      last of them covering `rem` bytes if that is not zero. */
  datatype Plan = Plan(groups: u32, rem: nat)

  function PlanOf(size: nat): Plan {
    var quo, rem := size / 128 % POW2_32, size % 128;
    Plan(if rem == 0 then quo else (quo + 1) % POW2_32, rem)
  }

  /** The number of image words the `i`th bitmap word covers. */
  function GroupSize(p: Plan, i: nat): nat {
    if i == p.groups - 1 && p.rem != 0 then p.rem / 4 else 32
  }

  /** The image words that the first `i` of the bitmap words cover. */
  function Reached(p: Plan, i: nat): nat {
    if i == 0 then 0 else 32 * (i - 1) + GroupSize(p, i - 1)
  }

  function Total(p: Plan): nat { Reached(p, p.groups) }

  const BITMAP: nat := 1032

  /** Where the payload is taken to begin: behind an even number of bitmap words. */
  function Base(p: Plan): nat { BITMAP + 4 * (p.groups + p.groups % 2) }

  /** The bitmap's bit for each word: from the top of its bitmap word down. */
  function BitsOf(mem: seq<byte>, p: Plan): nat -> bool {
    (w: nat) => BitAt(mem, w / 32, GroupSize(p, w / 32) - 1 - w % 32)
  }

  predicate BitAt(mem: seq<byte>, g: nat, j: int) {
    BITMAP + 4 * g + 4 <= |mem| && j >= 0 && ShiftRight(BitmapNumber(mem, g), j) % 2 == 1
  }

  function BitmapNumber(mem: seq<byte>, g: nat): nat
    requires BITMAP + 4 * g + 4 <= |mem|
  {
    BeVal(mem[BITMAP + 4 * g..BITMAP + 4 * g + 4])
  }

  /** Where the code of the `t`th word begins: a dictionary index takes a byte, a word four. */
  function Pos(bits: nat -> bool, base: nat, t: nat): nat {
    if t == 0 then base else Pos(bits, base, t - 1) + Length(bits(t - 1))
  }

  function Length(compressed: bool): nat { if compressed then 1 else 4 }

  function DictWord(mem: seq<byte>, i: byte): Word
    requires |mem| >= 1024
  {
    mem[4 * i as nat..4 * i as nat + 4]
  }

  /** The word a code stands for. */
  function Value(mem: seq<byte>, compressed: bool, p: nat): Word
    requires 1024 <= |mem| && p + Length(compressed) <= |mem|
  {
    if compressed then DictWord(mem, mem[p]) else mem[p..p + 4]
  }

  lemma {:induction false} PosGrows(bits: nat -> bool, base: nat, t: nat, u: nat)
    requires t <= u
    ensures Pos(bits, base, t) + (u - t) <= Pos(bits, base, u) <= Pos(bits, base, t) + 4 * (u - t)
    decreases u
  {
    if t < u {
      PosGrows(bits, base, t, u - 1);
    }
  }

  /** The first `t` words unpacked. */
  function Output(mem: seq<byte>, bits: nat -> bool, base: nat, t: nat): (r: seq<byte>)
    requires 1024 <= |mem| && Pos(bits, base, t) <= |mem|
    ensures |r| == 4 * t
  {
    if t == 0 then [] else Output(mem, bits, base, t - 1) + Value(mem, bits(t - 1), Pos(bits, base, t - 1))
  }

  datatype Result =
    | Endless                  // the loop over the bitmap does not end
    | Beyond                   // fewer than eight bytes follow the last code
    | Writes(bytes: seq<byte>) // these bytes are written, and nothing else

  /** Everything the unpacker reads, eight bytes of look-ahead included, is there. */
  predicate Enough(mem: seq<byte>, p: Plan) {
    Base(p) <= |mem| && Pos(BitsOf(mem, p), Base(p), Total(p)) + 8 <= |mem|
  }

  function RunOf(mem: seq<byte>): Result {
    if |mem| < BITMAP then Beyond
    else
      var p := PlanOf(BeVal(mem[1024..BITMAP]));
      if p.groups == POW2_32 - 1 then Endless
      else if !Enough(mem, p) then Beyond
      else Writes(Output(mem, BitsOf(mem, p), Base(p), Total(p)))
  }

  // ----- loading

  lemma SliceWithin(mem: seq<byte>, part: seq<byte>, at: nat, lo: nat, hi: nat)
    requires at + |part| <= |mem| && mem[at..at + |part|] == part && lo <= hi <= |part|
    ensures mem[at + lo..at + hi] == part[lo..hi]
  {
    forall k | 0 <= k < hi - lo
      ensures mem[at + lo..at + hi][k] == part[lo..hi][k]
    {
      assert part[lo + k] == mem[at..at + |part|][lo + k];
    }
  }

  /** `++i` on a 32-bit counter. */
  function Increment(i: u32): (r: u32)
    ensures i < POW2_32 - 1 ==> r == i + 1
  {
    (i + 1) % POW2_32
  }

  /** Reads `n` 32-bit words through 64-bit loads, so an odd `n` reads one more. With `n` at
      2^32 - 1 the counter would wrap and never reach `n`. */
  method LoadWords(mem: seq<byte>, start: nat, n: nat) returns (words: array<nat>, p: nat)
    requires n <= POW2_32 - 2 && start + 4 * (n + n % 2) <= |mem|
    ensures fresh(words) && words.Length == n + n % 2 && p == start + 4 * (n + n % 2)
    ensures forall i :: 0 <= i < n ==> words[i] == BeVal(mem[start + 4 * i..start + 4 * i + 4])
  {
    words, p := new nat[n + n % 2], start;
    var i: u32 := 0;
    while i < n
      invariant 0 <= i <= n + n % 2 && i % 2 == 0 && p == start + 4 * i
      invariant forall k :: 0 <= k < i ==> words[k] == BeVal(mem[start + 4 * k..start + 4 * k + 4])
    {
      var hi, lo := LoadPair(mem, p);
      words[i] := hi;
      words[i + 1] := lo;
      i := Increment(i);
      i := Increment(i);
      p := p + 8;
    }
  }

  method LoadPair(mem: seq<byte>, p: nat) returns (hi: nat, lo: nat)
    requires p + 8 <= |mem|
    ensures hi == BeVal(mem[p..p + 4]) && lo == BeVal(mem[p + 4..p + 8])
  {
    var eight := mem[p..p + 8];
    var temp := BeVal(eight);
    Halves(eight);
    assert eight[..4] == mem[p..p + 4] && eight[4..] == mem[p + 4..p + 8];
    hi, lo := temp / POW2_32, temp % POW2_32;
  }

  /** The look-ahead reader: eight bytes loaded, `k` of them consumed, after `q`
      bytes of payload from `base`. */
  datatype Reader = Reader(p: nat, eight: seq<byte>, k: nat)

  ghost predicate At(r: Reader, mem: seq<byte>, base: nat, q: nat) {
    && r.k == q % 8 && r.p == base + q - r.k + 8
    && r.p <= |mem| && r.eight == mem[r.p - 8..r.p]
  }

  method Open(mem: seq<byte>, base: nat) returns (r: Reader)
    requires base + 8 <= |mem|
    ensures At(r, mem, base, 0)
  {
    r := Reader(base + 8, mem[base..base + 8], 0);
  }

  method NextByte(mem: seq<byte>, r: Reader, ghost base: nat, ghost q: nat) returns (b: byte, r': Reader)
    requires At(r, mem, base, q) && base + q + 1 + 8 <= |mem|
    ensures b == mem[base + q] && At(r', mem, base, q + 1)
  {
    b := r.eight[r.k];
    r' := r.(k := r.k + 1);
    if r'.k == 8 {
      r' := Reader(r.p + 8, mem[r.p..r.p + 8], 0);
    }
  }

  /** `w` is put in place at `pos`. */
  ghost predicate Patched(all: seq<byte>, first: seq<byte>, pos: nat, w: seq<byte>) {
    pos + |w| <= |first| && all == first[..pos] + w + first[pos + |w|..]
  }

  /** Stores a 32-bit value. */
  method Store32(out: array<byte>, pos: nat, value: nat)
    requires pos + 4 <= out.Length
    modifies out
    ensures Patched(out[..], old(out[..]), pos, BeBytes(value, 4))
  {
    var bytes := BeBytes(value, 4);
    out[pos], out[pos + 1], out[pos + 2], out[pos + 3] := bytes[0], bytes[1], bytes[2], bytes[3];
  }

  method CopyByte(mem: seq<byte>, r: Reader, out: array<byte>, pos: nat, ghost base: nat, ghost q: nat)
      returns (r': Reader)
    requires At(r, mem, base, q) && base + q + 1 + 8 <= |mem| && pos < out.Length
    modifies out
    ensures At(r', mem, base, q + 1) && out[..] == old(out[..])[pos := mem[base + q]]
  {
    var b;
    b, r' := NextByte(mem, r, base, q);
    out[pos] := b;
  }

  /** Copies four payload bytes. */
  method CopyFour(mem: seq<byte>, r: Reader, out: array<byte>, pos: nat, ghost base: nat, ghost q: nat)
      returns (r': Reader)
    requires At(r, mem, base, q) && base + q + 4 + 8 <= |mem| && pos + 4 <= out.Length
    modifies out
    ensures At(r', mem, base, q + 4)
    ensures Patched(out[..], old(out[..]), pos, mem[base + q..base + q + 4])
  {
    r' := r;
    var i := 0;
    ghost var at, first, p := q, out[..], base + q;
    PatchedNone(first, pos, mem, p);
    while i < 4
      invariant 0 <= i <= 4 && at == q + i && At(r', mem, base, at)
      invariant Patched(out[..], first, pos, mem[p..p + i])
    {
      PatchedStep(out[..], first, pos, mem, p, i);
      r' := CopyByte(mem, r', out, pos + i, base, at);
      i, at := i + 1, at + 1;
    }
  }

  lemma PatchedNone(first: seq<byte>, pos: nat, mem: seq<byte>, p: nat)
    requires pos <= |first| && p <= |mem|
    ensures Patched(first, first, pos, mem[p..p + 0])
  {
  }

  lemma PatchedStep(all: seq<byte>, first: seq<byte>, pos: nat, mem: seq<byte>, p: nat, i: nat)
    requires p + i < |mem| && Patched(all, first, pos, mem[p..p + i]) && pos + i < |first|
    ensures Patched(all[pos + i := mem[p + i]], first, pos, mem[p..p + (i + 1)])
  {
  }

  /** The dictionary array holds the first words of memory as numbers. */
  ghost predicate Loaded(dict: array<nat>, mem: seq<byte>)
    reads dict
  {
    dict.Length == DICT_SIZE && 1024 <= |mem| && forall i: byte :: dict[i] == BeVal(DictWord(mem, i))
  }

  /** Writes the next word of the image at `pos`. */
  method DecodeWord(mem: seq<byte>, r: Reader, dict: array<nat>, isCompressed: bool, out: array<byte>, pos: nat,
                    ghost base: nat, ghost q: nat) returns (r': Reader)
    requires Loaded(dict, mem) && pos + 4 <= out.Length
    requires At(r, mem, base, q) && base + q + Length(isCompressed) + 8 <= |mem|
    modifies out
    ensures At(r', mem, base, q + Length(isCompressed))
    ensures Patched(out[..], old(out[..]), pos, Value(mem, isCompressed, base + q))
  {
    if isCompressed {
      var index;
      index, r' := NextByte(mem, r, base, q);
      BeBytesOfVal(DictWord(mem, index));
      Store32(out, pos, dict[index]);
    } else {
      r' := CopyFour(mem, r, out, pos, base, q);
    }
  }

  // ----- unpacking

  /** What an unpacking starts from: memory, the bits, where the payload begins, how many words
      there are, and the output buffer before. */
  datatype Unpacking = Unpacking(mem: seq<byte>, bits: nat -> bool, base: nat, total: nat, first: seq<byte>)

  ghost predicate Sound(k: Unpacking) {
    1024 <= |k.mem| && Pos(k.bits, k.base, k.total) + 8 <= |k.mem| && 4 * k.total <= |k.first|
  }

  /** The reader and the output buffer after `t` words of the image. */
  ghost predicate Decoded(k: Unpacking, r: Reader, all: seq<byte>, t: nat)
    requires Sound(k)
  {
    && t <= k.total && k.base <= Pos(k.bits, k.base, t) <= Pos(k.bits, k.base, k.total)
    && At(r, k.mem, k.base, Pos(k.bits, k.base, t) - k.base)
    && Filled(all, k.first, Output(k.mem, k.bits, k.base, t))
  }

  ghost predicate Filled(all: seq<byte>, first: seq<byte>, done: seq<byte>) {
    |done| <= |all| == |first| && all[..|done|] == done && all[|done|..] == first[|done|..]
  }

  method DecodeNext(mem: seq<byte>, r: Reader, dict: array<nat>, isCompressed: bool, out: array<byte>, pos: nat,
                    ghost k: Unpacking, ghost t: nat) returns (r': Reader)
    requires Sound(k) && mem == k.mem && Loaded(dict, mem) && t < k.total && pos == 4 * t
    requires isCompressed == k.bits(t) && Decoded(k, r, out[..], t)
    modifies out
    ensures Decoded(k, r', out[..], t + 1)
  {
    NextFits(k, t);
    ghost var before, q, done := out[..], Pos(k.bits, k.base, t), Output(k.mem, k.bits, k.base, t);
    r' := DecodeWord(mem, r, dict, isCompressed, out, pos, k.base, q - k.base);
    DecodedStep(k, r', before, out[..], t, q, done);
  }

  lemma DecodedStep(k: Unpacking, r: Reader, before: seq<byte>, all: seq<byte>, t: nat, q: nat, done: seq<byte>)
    requires Sound(k) && t < k.total && k.base <= q == Pos(k.bits, k.base, t)
    requires Pos(k.bits, k.base, t + 1) <= Pos(k.bits, k.base, k.total)
    requires At(r, k.mem, k.base, q - k.base + Length(k.bits(t))) && done == Output(k.mem, k.bits, k.base, t)
    requires Filled(before, k.first, done) && Patched(all, before, |done|, Value(k.mem, k.bits(t), q))
    ensures Decoded(k, r, all, t + 1)
  {
    FilledStep(before, all, k.first, done, Value(k.mem, k.bits(t), q));
  }

  lemma NextFits(k: Unpacking, t: nat)
    requires Sound(k) && t < k.total
    ensures k.base <= Pos(k.bits, k.base, t) && Pos(k.bits, k.base, t + 1) <= Pos(k.bits, k.base, k.total)
  {
    PosGrows(k.bits, k.base, 0, t);
    PosGrows(k.bits, k.base, t + 1, k.total);
  }

  lemma FilledStep(before: seq<byte>, all: seq<byte>, first: seq<byte>, done: seq<byte>, w: Word)
    requires Filled(before, first, done) && Patched(all, before, |done|, w)
    ensures Filled(all, first, done + w)
  {
    assert before[|done| + 4..] == before[|done|..][4..];
  }

  /** Bit `top - j` of a bitmap word is the bit of the `j`th word from `t` on. */
  ghost predicate BitsTell(word: nat, top: int, bits: nat -> bool, t: nat) {
    forall j :: 0 <= j <= top ==> (ShiftRight(word, j) % 2 == 1) == bits(t + top - j)
  }

  /** Unpacks one bitmap word's worth of the image. */
  method DecodeGroup(mem: seq<byte>, r: Reader, dict: array<nat>, word: nat, top: int, out: array<byte>, pos: nat,
                     ghost k: Unpacking, ghost t: nat, ghost t': nat) returns (r': Reader, pos': nat)
    requires Sound(k) && mem == k.mem && Loaded(dict, mem) && pos == 4 * t
    requires top >= -1 && t' == t + top + 1 <= k.total && BitsTell(word, top, k.bits, t) && Decoded(k, r, out[..], t)
    modifies out
    ensures pos' == 4 * t' && Decoded(k, r', out[..], t')
  {
    r', pos' := r, pos;
    var j := top;
    ghost var at := t;
    while j >= 0
      invariant -1 <= j <= top && at == t + top - j && pos' == 4 * at
      invariant Decoded(k, r', out[..], at)
    {
      var isCompressed := ShiftRight(word, j) % 2 == 1;
      BitTells(word, top, k.bits, t, j, at);
      r' := DecodeNext(mem, r', dict, isCompressed, out, pos', k, at);
      pos', at := pos' + 4, at + 1;
      j := j - 1;
    }
  }

  lemma BitTells(word: nat, top: int, bits: nat -> bool, t: nat, j: nat, w: nat)
    requires BitsTell(word, top, bits, t) && j <= top && w == t + top - j
    ensures (ShiftRight(word, j) % 2 == 1) == bits(w)
  {
  }

  lemma GroupTells(mem: seq<byte>, p: Plan, g: nat, word: nat, top: int)
    requires g < p.groups && BITMAP + 4 * p.groups <= |mem| && p.rem < 128
    requires word == BitmapNumber(mem, g) && top == GroupSize(p, g) - 1
    ensures BitsTell(word, top, BitsOf(mem, p), 32 * g)
  {
    forall j | 0 <= j <= top
      ensures (ShiftRight(word, j) % 2 == 1) == BitsOf(mem, p)(32 * g + top - j)
    {
      WordInGroup(g, top - j);
    }
  }

  lemma WordInGroup(g: nat, i: nat)
    requires i < 32
    ensures (32 * g + i) / 32 == g && (32 * g + i) % 32 == i
  {
  }

  lemma ReachedStep(p: Plan, i: nat)
    requires i < p.groups && p.rem < 128
    ensures Reached(p, i) == 32 * i && Reached(p, i + 1) == 32 * i + GroupSize(p, i) <= Total(p)
  {
  }

  /** The `i`th bitmap word tells the bits of the words it covers. */
  ghost predicate GroupOk(k: Unpacking, p: Plan, i: nat)
    requires i < p.groups && BITMAP + 4 * p.groups <= |k.mem|
  {
    && Reached(p, i) == 32 * i && Reached(p, i + 1) == 32 * i + GroupSize(p, i) <= k.total
    && BitsTell(BitmapNumber(k.mem, i), GroupSize(p, i) - 1, k.bits, 32 * i)
  }

  /** An unpacking by the bitmap words in `words`. */
  ghost predicate GroupsOk(k: Unpacking, p: Plan, words: seq<nat>) {
    && Sound(k) && k.base == Base(p) <= |k.mem| && k.total == Total(p) && p.groups <= |words|
    && forall i: nat :: i < p.groups ==> words[i] == BitmapNumber(k.mem, i) && GroupOk(k, p, i)
  }

  /** Unpacked so far: what the first `i` bitmap words cover. */
  ghost predicate Unpacked(k: Unpacking, p: Plan, i: nat, r: Reader, pos: nat, all: seq<byte>) {
    Sound(k) && pos == 4 * Reached(p, i) && Decoded(k, r, all, Reached(p, i))
  }

  /** Unpacks the groups named by the bitmap, one after the other. */
  method DecodeGroups(mem: seq<byte>, dict: array<nat>, bitArray: array<nat>, p: Plan, out: array<byte>, ghost k: Unpacking)
    requires GroupsOk(k, p, bitArray[..]) && k.mem == mem && k.first == out[..] && Loaded(dict, mem)
    modifies out
    ensures Filled(out[..], k.first, Output(k.mem, k.bits, k.base, k.total))
  {
    BaseFits(k);
    var r := Open(mem, Base(p));
    Prepared(k, p, r);
    var pos, i: u32 := 0, 0;
    while i < p.groups
      invariant i <= p.groups && Unpacked(k, p, i, r, pos, out[..])
    {
      r, pos := DecodeOne(mem, dict, bitArray, p, i, out, r, pos, k);
      i := Increment(i);
    }
  }

  lemma BaseFits(k: Unpacking)
    requires Sound(k)
    ensures k.base + 8 <= |k.mem|
  {
    PosGrows(k.bits, k.base, 0, k.total);
  }

  lemma Prepared(k: Unpacking, p: Plan, r: Reader)
    requires Sound(k) && At(r, k.mem, k.base, 0)
    ensures Unpacked(k, p, 0, r, 0, k.first)
  {
    PosGrows(k.bits, k.base, 0, k.total);
  }

  method DecodeOne(mem: seq<byte>, dict: array<nat>, bitArray: array<nat>, p: Plan, i: nat, out: array<byte>, r: Reader,
                   pos: nat, ghost k: Unpacking) returns (r': Reader, pos': nat)
    requires GroupsOk(k, p, bitArray[..]) && mem == k.mem && Loaded(dict, mem) && i < p.groups
    requires Unpacked(k, p, i, r, pos, out[..])
    modifies out
    ensures Unpacked(k, p, i + 1, r', pos', out[..])
  {
    var word, top := bitArray[i], GroupSize(p, i) - 1;
    ghost var t, t' := Reached(p, i), Reached(p, i + 1);
    assert bitArray[..][i] == word;
    GroupSpan(k, p, i, word, t, t', top);
    r', pos' := DecodeGroup(mem, r, dict, word, top, out, pos, k, t, t');
  }

  lemma GroupSpan(k: Unpacking, p: Plan, i: nat, word: nat, t: nat, t': nat, top: int)
    requires i < p.groups && BITMAP + 4 * p.groups <= |k.mem| && GroupOk(k, p, i) && word == BitmapNumber(k.mem, i)
    requires t == Reached(p, i) && t' == Reached(p, i + 1) && top == GroupSize(p, i) - 1
    ensures top >= -1 && t' == t + top + 1 <= k.total && BitsTell(word, top, k.bits, t)
  {
  }

  lemma GroupReady(k: Unpacking, p: Plan, i: nat)
    requires i < p.groups && p.rem < 128 && BITMAP + 4 * p.groups <= |k.mem|
    requires k.bits == BitsOf(k.mem, p) && k.total == Total(p)
    ensures GroupOk(k, p, i)
  {
    ReachedStep(p, i);
    GroupTells(k.mem, p, i, BitmapNumber(k.mem, i), GroupSize(p, i) - 1);
  }

  method LoadDictionary(mem: seq<byte>) returns (dict: array<nat>)
    requires 1024 <= |mem|
    ensures fresh(dict) && Loaded(dict, mem)
  {
    var p;
    dict, p := LoadWords(mem, 0, DICT_SIZE);
    forall i: byte
      ensures dict[i] == BeVal(DictWord(mem, i))
    {
      var j := i as nat;
      assert dict[j] == BeVal(mem[0 + 4 * j..0 + 4 * j + 4]);
    }
  }

  /** The whole of `decompress`, over any memory that is long enough. */
  method Unpack(mem: seq<byte>, out: array<byte>)
    requires RunOf(mem).Writes? && |RunOf(mem).bytes| <= out.Length
    modifies out
    ensures Filled(out[..], old(out[..]), RunOf(mem).bytes)
  {
    var dict := LoadDictionary(mem);
    var p := PlanOf(BeVal(mem[1024..BITMAP]));
    var bitArray, end := LoadWords(mem, BITMAP, p.groups);
    ghost var k := Unpacking(mem, BitsOf(mem, p), Base(p), Total(p), out[..]);
    forall i: nat | i < p.groups
      ensures bitArray[i] == BitmapNumber(mem, i) && GroupOk(k, p, i)
    {
      GroupReady(k, p, i);
    }
    DecodeGroups(mem, dict, bitArray, p, out, k);
  }

  // ----- unpacking what was packed

  /** The largest image whose 32-bit bitmap counters do not wrap. */
  const MAX_IMAGE: nat := 0x7F_FFFF_FF00

  lemma CodeWithin(mem: seq<byte>, part: seq<byte>, at: nat, q: nat, code: seq<byte>)
    requires at + |part| <= |mem| && mem[at..at + |part|] == part
    requires q + |code| <= |part| && part[q..q + |code|] == code
    ensures mem[at + q..at + q + |code|] == code
  {
    SliceWithin(mem, part, at, q, q + |code|);
  }

  ghost predicate WordsAt(mem: seq<byte>, at: nat, ws: seq<Word>) {
    at + 4 * |ws| <= |mem| && mem[at..at + 4 * |ws|] == Join(ws)
  }

  lemma WordInMemory(mem: seq<byte>, at: nat, ws: seq<Word>, i: nat)
    requires WordsAt(mem, at, ws) && i < |ws|
    ensures mem[at + 4 * i..at + 4 * i + 4] == ws[i]
  {
    JoinAt(ws, i);
    SliceWithin(mem, Join(ws), at, 4 * i, 4 * i + 4);
  }

  /** Where the pieces of a compressed file lie in memory. */
  ghost predicate Laid(mem: seq<byte>, words: seq<Word>, ws: seq<Word>, base: nat)
    requires |words| == DICT_SIZE
  {
    var g := GroupCount(|ws|);
    && base == BITMAP + 4 * (g + g % 2) <= |mem|
    && WordsAt(mem, 0, words)
    && BeVal(mem[1024..BITMAP]) == 4 * |ws|
    && WordsAt(mem, BITMAP, Bitmap(words, ws, g))
    && PayloadAt(mem, words, ws, base)
  }

  lemma Sections(mem: seq<byte>, a: seq<byte>, b: seq<byte>, c: seq<byte>, d: seq<byte>, e: seq<byte>)
    requires a + b + c + d + e <= mem
    ensures var i, j, k, l := |a|, |a| + |b|, |a| + |b| + |c|, |a| + |b| + |c| + |d|;
      mem[0..i] == a && mem[i..j] == b && mem[j..k] == c && mem[l..l + |e|] == e
  {
    var f := a + b + c + d + e;
    assert f[..|a|] == a && f[|a|..|a| + |b|] == b;
    assert f == (a + b) + (c + d + e) && f == (a + b + c + d) + e;
  }

  lemma SizeRoundTrip(n: nat)
    requires n <= MAX_IMAGE
    ensures BeVal(BeBytes(n, 8)) == n
  {
    assert Pow256(8) == Pow256(4) * Pow256(4) && Pow256(4) == POW2_32;
    BeRoundTrip(n, 8);
  }

  lemma FileIsLaid(mem: seq<byte>, words: seq<Word>, image: seq<byte>)
    requires |words| == DICT_SIZE && |image| % 4 == 0 && |image| <= MAX_IMAGE
    requires CompressedFile(words, image) <= mem && |CompressedFile(words, image)| + 8 <= |mem|
    ensures Laid(mem, words, Words(image), |Preamble(words, image)|)
  {
    var ws := Words(image);
    var g := GroupCount(|ws|);
    SizeRoundTrip(|image|);
    PiecesLaid(mem, words, ws, BeBytes(|image|, 8), Bitmap(words, ws, g), Padding(g), Payload(words, ws));
  }

  lemma PiecesLaid(mem: seq<byte>, words: seq<Word>, ws: seq<Word>, size: seq<byte>, bitmap: seq<Word>, pad: seq<byte>,
                   payload: seq<byte>)
    requires |words| == DICT_SIZE && |size| == 8 && BeVal(size) == 4 * |ws|
    requires |bitmap| == GroupCount(|ws|) && |pad| == 4 * (|bitmap| % 2)
    requires bitmap == Bitmap(words, ws, |bitmap|) && payload == Payload(words, ws)
    requires var file := Join(words) + size + Join(bitmap) + pad + payload; file <= mem && |file| + 8 <= |mem|
    ensures Laid(mem, words, ws, |Join(words) + size + Join(bitmap) + pad|)
  {
    Sections(mem, Join(words), size, Join(bitmap), pad, payload);
  }

  ghost predicate PayloadAt(mem: seq<byte>, words: seq<Word>, ws: seq<Word>, base: nat)
    requires |words| == DICT_SIZE
  {
    base + |Payload(words, ws)| + 8 <= |mem| && mem[base..base + |Payload(words, ws)|] == Payload(words, ws)
  }

  lemma CodeInside(mem: seq<byte>, payload: seq<byte>, base: nat, q: nat, code: seq<byte>)
    requires base + |payload| + 8 <= |mem| && mem[base..base + |payload|] == payload
    requires q + |code| <= |payload| && payload[q..q + |code|] == code
    ensures base + q + |code| + 8 <= |mem| && mem[base + q..base + q + |code|] == code
  {
    CodeWithin(mem, payload, base, q, code);
  }

  /** Bit `j` of the `i`th bitmap word says whether its word is in the dictionary. */
  lemma BitmapBit(words: seq<Word>, ws: seq<Word>, i: nat, j: nat)
    requires i < GroupCount(|ws|) && j < |Group(ws, i)|
    ensures (ShiftRight(BeVal(BitmapWord(words, ws, i)), j) % 2 == 1)
              == (ws[32 * i + |Group(ws, i)| - 1 - j] in words)
  {
    var bits := Bits(words, Group(ws, i));
    Pow2Bound(|bits|);
    BeRoundTrip(BitsValue(bits), 4);
    BitsValueAt(bits, j);
  }

  lemma {:induction false} Pow2Bound(n: nat)
    requires n <= 32
    ensures Pow2(n) <= Pow256(4)
    decreases 32 - n
  {
    if n < 32 {
      Pow2Bound(n + 1);
    } else {
      Pow2Eight(24);
      Pow2Eight(16);
      Pow2Eight(8);
      Pow2Eight(0);
    }
  }

  /** The first `t` words joined. */
  function Joined(ws: seq<Word>, t: nat): seq<byte>
    requires t <= |ws|
  {
    if t == 0 then [] else Joined(ws, t - 1) + ws[t - 1]
  }

  lemma {:induction false} JoinedIs(ws: seq<Word>, t: nat)
    requires t <= |ws|
    ensures Joined(ws, t) == Join(ws[..t])
    decreases t
  {
    if t > 0 {
      JoinedIs(ws, t - 1);
      JoinStep(ws, t - 1);
    }
  }

  lemma JoinStep(ws: seq<Word>, t: nat)
    requires t < |ws|
    ensures Join(ws[..t + 1]) == Join(ws[..t]) + ws[t]
  {
    assert ws[..t + 1][..t] == ws[..t];
  }

  lemma {:induction false} JoinWords(image: seq<byte>, t: nat)
    requires 4 * t <= |image|
    ensures Join(Words(image)[..t]) == image[..4 * t]
    decreases t
  {
    if t > 0 {
      JoinWords(image, t - 1);
      assert Words(image)[..t][..t - 1] == Words(image)[..t - 1];
      assert image[..4 * t] == image[..4 * t - 4] + WordAt(image, t - 1);
    }
  }

  lemma JoinAll(image: seq<byte>)
    requires |image| % 4 == 0
    ensures Join(Words(image)) == image
  {
    JoinWords(image, |image| / 4);
    assert Words(image)[..|image| / 4] == Words(image) && image[..|image|] == image;
  }


  // ----- the codes of a compressed file

  lemma BitsOfFile(mem: seq<byte>, words: seq<Word>, ws: seq<Word>, base: nat, p: Plan, w: nat)
    requires |words| == DICT_SIZE && Laid(mem, words, ws, base) && p == PlanOf(4 * |ws|) && 4 * |ws| <= MAX_IMAGE && w < |ws|
    ensures BitsOf(mem, p)(w) == (ws[w] in words)
  {
    var g, i := w / 32, w % 32;
    GroupLength(ws, g, i);
    BitOfGroup(mem, words, ws, g, i, w);
  }

  lemma BitOfGroup(mem: seq<byte>, words: seq<Word>, ws: seq<Word>, g: nat, i: nat, w: nat)
    requires g < GroupCount(|ws|) && i < |Group(ws, g)| && w == 32 * g + i && WordsAt(mem, BITMAP, Bitmap(words, ws, GroupCount(|ws|)))
    ensures BitAt(mem, g, |Group(ws, g)| - 1 - i) == (ws[w] in words)
  {
    var bitmap := Bitmap(words, ws, GroupCount(|ws|));
    WordInMemory(mem, BITMAP, bitmap, g);
    assert bitmap[g] == BitmapWord(words, ws, g);
    BitmapBit(words, ws, g, |Group(ws, g)| - 1 - i);
  }

  /** In range the size field means what the packer wrote. */
  lemma PlanOfImage(n: nat)
    requires 4 * n <= MAX_IMAGE
    ensures var p := PlanOf(4 * n); p.groups == GroupCount(n) <= POW2_32 - 2 && p.rem == 4 * n % 128 && Total(p) == n
  {
    var q, r := n / 32, n % 32;
    assert 4 * n / 128 == q && 4 * n % 128 == 4 * r;
    assert q % POW2_32 == q;
    assert GroupCount(n) == if r == 0 then q else q + 1;
  }

  lemma GroupLength(ws: seq<Word>, g: nat, i: nat)
    requires 32 * g + i < |ws| && i < 32 && 4 * |ws| <= MAX_IMAGE
    ensures g < GroupCount(|ws|) && i < |Group(ws, g)| == GroupSize(PlanOf(4 * |ws|), g)
  {
    PlanOfImage(|ws|);
  }

  lemma {:induction false} PosOfFile(mem: seq<byte>, words: seq<Word>, ws: seq<Word>, bits: nat -> bool, base: nat, t: nat)
    requires |words| == DICT_SIZE && t <= |ws| && forall w :: 0 <= w < |ws| ==> bits(w) == (ws[w] in words)
    ensures Pos(bits, base, t) == base + |Payload(words, ws[..t])|
    decreases t
  {
    if t > 0 {
      PosOfFile(mem, words, ws, bits, base, t - 1);
      PayloadCode(words, ws, t - 1);
    }
  }

  lemma ValueOfFile(mem: seq<byte>, words: seq<Word>, ws: seq<Word>, bits: nat -> bool, base: nat, t: nat)
    requires |words| == DICT_SIZE && t < |ws| && (forall w :: 0 <= w < |ws| ==> bits(w) == (ws[w] in words))
    requires WordsAt(mem, 0, words) && PayloadAt(mem, words, ws, base)
    ensures var q := Pos(bits, base, t); q + Length(bits(t)) + 8 <= |mem| && Value(mem, bits(t), q) == ws[t]
  {
    var q := |Payload(words, ws[..t])|;
    PosOfFile(mem, words, ws, bits, base, t);
    NextCode(mem, words, ws, base, t);
    CodeValue(mem, words, ws[t], base + q);
  }

  lemma NextCode(mem: seq<byte>, words: seq<Word>, ws: seq<Word>, base: nat, t: nat)
    requires |words| == DICT_SIZE && t < |ws| && PayloadAt(mem, words, ws, base)
    ensures var q, code := |Payload(words, ws[..t])|, EncodeWord(words, ws[t]);
      base + q + |code| + 8 <= |mem| && mem[base + q..base + q + |code|] == code
  {
    var payload, q, code := Payload(words, ws), |Payload(words, ws[..t])|, EncodeWord(words, ws[t]);
    assert q + |code| <= |payload| && payload[q..q + |code|] == code by {
      PayloadCode(words, ws, t);
    }
    CodeInside(mem, payload, base, q, code);
  }

  /** A word's code stands for the word. */
  lemma CodeValue(mem: seq<byte>, words: seq<Word>, w: Word, p: nat)
    requires |words| == DICT_SIZE && WordsAt(mem, 0, words)
    requires var code := EncodeWord(words, w); p + |code| <= |mem| && mem[p..p + |code|] == code
    ensures |EncodeWord(words, w)| == Length(w in words) && Value(mem, w in words, p) == w
  {
    if w in words {
      assert mem[p] == mem[p..p + 1][0];
      WordInMemory(mem, 0, words, IndexOf(words, w));
    }
  }

  lemma {:induction false} OutputOfFile(mem: seq<byte>, words: seq<Word>, ws: seq<Word>, bits: nat -> bool, base: nat, t: nat)
    requires |words| == DICT_SIZE && t <= |ws| && (forall w :: 0 <= w < |ws| ==> bits(w) == (ws[w] in words))
    requires WordsAt(mem, 0, words) && PayloadAt(mem, words, ws, base)
    ensures Pos(bits, base, t) + 8 <= |mem| && Output(mem, bits, base, t) == Joined(ws, t)
    decreases t
  {
    if t > 0 {
      OutputOfFile(mem, words, ws, bits, base, t - 1);
      ValueOfFile(mem, words, ws, bits, base, t - 1);
    }
  }

  /** Memory that starts with a compressed image, and goes on for at least eight bytes, is
      unpacked to the image. */
  lemma FileUnpacks(mem: seq<byte>, words: seq<Word>, image: seq<byte>)
    requires |words| == DICT_SIZE && |image| % 4 == 0 && |image| <= MAX_IMAGE
    requires CompressedFile(words, image) <= mem && |CompressedFile(words, image)| + 8 <= |mem|
    ensures RunOf(mem) == Writes(image)
  {
    FileIsLaid(mem, words, image);
    JoinAll(image);
    LaidUnpacks(mem, words, Words(image), |Preamble(words, image)|);
  }

  lemma LaidUnpacks(mem: seq<byte>, words: seq<Word>, ws: seq<Word>, base: nat)
    requires |words| == DICT_SIZE && 4 * |ws| <= MAX_IMAGE && Laid(mem, words, ws, base)
    ensures RunOf(mem) == Writes(Join(ws))
  {
    var p := PlanOf(4 * |ws|);
    var bits := BitsOf(mem, p);
    PlanOfImage(|ws|);
    forall w | 0 <= w < |ws|
      ensures bits(w) == (ws[w] in words)
    {
      BitsOfFile(mem, words, ws, base, p, w);
    }
    OutputOfFile(mem, words, ws, bits, base, |ws|);
    JoinedIs(ws, |ws|);
    assert ws[..|ws|] == ws;
    RunWrites(mem, p, bits, base, |ws|);
  }

  lemma RunWrites(mem: seq<byte>, p: Plan, bits: nat -> bool, base: nat, n: nat)
    requires BITMAP <= |mem| && p == PlanOf(BeVal(mem[1024..BITMAP])) && p.groups < POW2_32 - 1
    requires bits == BitsOf(mem, p) && base == Base(p) && n == Total(p) && base <= |mem| && Pos(bits, base, n) + 8 <= |mem|
    ensures RunOf(mem) == Writes(Output(mem, bits, base, n))
  {
  }

  /** Unpacking memory that starts with a compressed image, and goes on for at least
      eight bytes, restores the image and touches nothing after it. */
  method Decompress(mem: seq<byte>, out: array<byte>, ghost words: seq<Word>, ghost image: seq<byte>)
    requires |words| == DICT_SIZE && |image| % 4 == 0 && |image| <= MAX_IMAGE && |image| <= out.Length
    requires CompressedFile(words, image) <= mem && |CompressedFile(words, image)| + 8 <= |mem|
    modifies out
    ensures out[..|image|] == image
    ensures out[|image|..] == old(out[|image|..])
  {
    FileUnpacks(mem, words, image);
    Unpack(mem, out);
  }
}
