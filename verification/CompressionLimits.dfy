/** Which images survive packing and unpacking: exactly those of whole words, with at
    least 256 different ones, up to the size at which the unpacker's counters wrap. */
module CompressionLimits {
  import opened Bytes
  import opened CompressedImage
  import opened Decompression
  import opened Compression

  /** The images that unpacking restores. */
  ghost predicate Restorable(image: seq<byte>) {
    |image| % 4 == 0 && |image| <= MAX_IMAGE && |Vocabulary(Words(image))| >= DICT_SIZE
  }

  /** Memory so long that the unpacker never comes to its end. */
  const AMPLE: nat := 0x1000_0000_0000

  /** The unpacker writes something else than the image, or writes without end. */
  ghost predicate Misread(mem: seq<byte>, image: seq<byte>) {
    !RunOf(mem).Beyond? && RunOf(mem) != Writes(image)
  }

  /** A restorable image comes back whatever follows its file. For any other image some bytes
      behind the file make the unpacker produce something else. */
  lemma RestoredExactly(dict: seq<Word>, image: seq<byte>)
    requires 4 <= |image| && MostFrequent(dict, Words(image))
    ensures Restorable(image) ==>
      forall rest: seq<byte> :: |rest| >= 8 ==> RunOf(CompressedFile(dict, image) + rest) == Writes(image)
    ensures !Restorable(image) ==>
      exists rest: seq<byte> :: |rest| >= 8 && Misread(CompressedFile(dict, image) + rest, image)
  {
    var file := CompressedFile(dict, image);
    FullDictionary(dict, Words(image));
    if Restorable(image) {
      forall rest: seq<byte> | |rest| >= 8
        ensures RunOf(file + rest) == Writes(image)
      {
        FileUnpacks(file + rest, dict, image);
      }
    } else {
      var rest := FailingRest(dict, image);
    }
  }

  /** The dictionary is full exactly if the image has enough different words. */
  lemma FullDictionary(dict: seq<Word>, ws: seq<Word>)
    requires MostFrequent(dict, ws)
    ensures |dict| == DICT_SIZE <==> |Vocabulary(ws)| >= DICT_SIZE
    ensures |dict| < DICT_SIZE ==> Vocabulary(ws) == Vocabulary(dict)
  {
    VocabularySize(dict);
    SubsetCardinality(Vocabulary(dict), Vocabulary(ws));
  }

  lemma FailingRest(dict: seq<Word>, image: seq<byte>) returns (rest: seq<byte>)
    requires 4 <= |image| && MostFrequent(dict, Words(image)) && !Restorable(image)
    ensures |rest| >= 8 && Misread(CompressedFile(dict, image) + rest, image)
  {
    var file := CompressedFile(dict, image);
    rest := seq(AMPLE, _ => 0);
    var mem := file + rest;
    AmpleRuns(mem);
    if !Misread(mem, image) {
      FullDictionary(dict, Words(image));
      rest := ChangeLast(dict, image, mem, file, rest);
    }
  }

  // ----- runs

  /** What a run that ends goes by. */
  ghost predicate RunsBy(mem: seq<byte>, p: Plan, bits: nat -> bool, base: nat, n: nat) {
    && BITMAP <= |mem| && p == PlanOf(BeVal(mem[1024..BITMAP])) && p.groups < POW2_32 - 1
    && bits == BitsOf(mem, p) && base == Base(p) <= |mem| && n == Total(p) && Pos(bits, base, n) + 8 <= |mem|
  }

  lemma RunIs(mem: seq<byte>) returns (p: Plan, bits: nat -> bool, base: nat, n: nat)
    requires RunOf(mem).Writes?
    ensures RunsBy(mem, p, bits, base, n) && RunOf(mem) == Writes(Output(mem, bits, base, n))
  {
    p := PlanOf(BeVal(mem[1024..BITMAP]));
    bits, base, n := BitsOf(mem, p), Base(p), Total(p);
  }

  lemma AmpleRuns(mem: seq<byte>)
    requires |mem| >= AMPLE
    ensures !RunOf(mem).Beyond?
    ensures RunOf(mem).Writes? ==> |RunOf(mem).bytes| % 4 == 0 && |RunOf(mem).bytes| <= MAX_IMAGE
  {
    var p := PlanOf(BeVal(mem[1024..BITMAP]));
    PlanBounded(BeVal(mem[1024..BITMAP]), p);
    AmpleFits(BitsOf(mem, p), Base(p), Total(p), |mem|);
  }

  lemma PlanBounded(size: nat, p: Plan)
    requires p == PlanOf(size)
    ensures p.rem < 128 && Total(p) <= 32 * p.groups && BITMAP + 4 * p.groups <= Base(p) <= BITMAP + 4 * POW2_32
  {
  }

  lemma AmpleFits(bits: nat -> bool, base: nat, total: nat, m: nat)
    requires base <= BITMAP + 4 * POW2_32 && total <= 32 * POW2_32 && AMPLE <= m
    ensures Pos(bits, base, total) + 8 <= m
  {
    PosGrows(bits, base, 0, total);
  }

  // ----- changing the last byte that is read

  /** Every bit the run uses lies before the payload. */
  lemma SameBits(mem: seq<byte>, mem': seq<byte>, p: Plan, x: nat, w: nat)
    requires |mem| == |mem'| && Base(p) <= x <= |mem| && mem[..x] == mem'[..x] && w < Total(p) && p.rem < 128
    ensures BitsOf(mem, p)(w) == BitsOf(mem', p)(w)
  {
    var g := w / 32;
    assert BITMAP + 4 * g + 4 <= x;
    assert mem[BITMAP + 4 * g..BITMAP + 4 * g + 4] == mem[..x][BITMAP + 4 * g..BITMAP + 4 * g + 4];
    assert mem'[BITMAP + 4 * g..BITMAP + 4 * g + 4] == mem'[..x][BITMAP + 4 * g..BITMAP + 4 * g + 4];
  }

  lemma {:induction false} SamePos(bits: nat -> bool, bits': nat -> bool, base: nat, t: nat)
    requires forall w: nat :: w < t ==> bits(w) == bits'(w)
    ensures Pos(bits, base, t) == Pos(bits', base, t)
  {
    if t > 0 {
      SamePos(bits, bits', base, t - 1);
    }
  }

  /** Memory with another last code byte, standing for another word: the run writes something
      else. */
  lemma ChangedRun(mem: seq<byte>, p: Plan, bits: nat -> bool, base: nat, n: nat, q: nat, x: nat, mem': seq<byte>)
    requires n > 0 && RunsBy(mem, p, bits, base, n) && q == Pos(bits, base, n - 1) && x + 1 == q + Length(bits(n - 1))
    requires base <= x < |mem| == |mem'| && mem[..x] == mem'[..x] && x + 9 <= |mem|
    requires Value(mem', bits(n - 1), q) != Value(mem, bits(n - 1), q)
    ensures RunOf(mem').Writes? && RunOf(mem').bytes != Output(mem, bits, base, n)
  {
    var bits' := BitsOf(mem', p);
    SamePayload(mem, mem', p, bits, bits', base, n, x);
    RunWrites(mem', p, bits', base, n);
    LastWord(mem, bits, base, n);
    LastWord(mem', bits', base, n);
  }

  lemma SamePayload(mem: seq<byte>, mem': seq<byte>, p: Plan, bits: nat -> bool, bits': nat -> bool, base: nat, n: nat, x: nat)
    requires n > 0 && RunsBy(mem, p, bits, base, n) && bits' == BitsOf(mem', p)
    requires base <= x < |mem| == |mem'| && mem[..x] == mem'[..x]
    ensures mem'[1024..BITMAP] == mem[1024..BITMAP] && bits'(n - 1) == bits(n - 1)
    ensures Pos(bits', base, n - 1) == Pos(bits, base, n - 1) && Pos(bits', base, n) == Pos(bits, base, n)
  {
    PlanBounded(BeVal(mem[1024..BITMAP]), p);
    forall w: nat | w < n
      ensures bits(w) == bits'(w)
    {
      SameBits(mem, mem', p, x, w);
    }
    SamePos(bits, bits', base, n - 1);
    SamePos(bits, bits', base, n);
    SamePlan(mem, mem', x);
  }

  lemma SamePlan(mem: seq<byte>, mem': seq<byte>, x: nat)
    requires BITMAP <= x <= |mem| == |mem'| && mem[..x] == mem'[..x]
    ensures mem'[1024..BITMAP] == mem[1024..BITMAP]
  {
    assert mem[1024..BITMAP] == mem[..x][1024..BITMAP];
    assert mem'[1024..BITMAP] == mem'[..x][1024..BITMAP];
  }

  lemma LastWord(mem: seq<byte>, bits: nat -> bool, base: nat, n: nat)
    requires n > 0 && 1024 <= |mem| && Pos(bits, base, n) <= |mem|
    ensures Pos(bits, base, n - 1) + Length(bits(n - 1)) <= |mem|
    ensures Output(mem, bits, base, n)[4 * n - 4..] == Value(mem, bits(n - 1), Pos(bits, base, n - 1))
  {
  }

  /** A code's last byte can be chosen so that the code stands for another word, if the
      dictionary, as the unpacker takes it, holds two different words. */
  lemma OtherByte(mem: seq<byte>, compressed: bool, q: nat, x: nat, a: byte, b: byte) returns (v: byte)
    requires 1024 <= q && x + 1 == q + Length(compressed) <= |mem| && DictWord(mem, a) != DictWord(mem, b)
    ensures Value(mem[x := v], compressed, q) != Value(mem, compressed, q)
  {
    if compressed {
      v := if DictWord(mem, a) != DictWord(mem, mem[q]) then a else b;
      assert DictWord(mem[x := v], v) == DictWord(mem, v);
    } else {
      v := if mem[x] == 0 then 1 else 0;
      assert mem[q..q + 4][3] == mem[x];
      assert mem[x := v][q..q + 4][3] == v;
    }
  }

  // ----- a short dictionary

  lemma {:induction false} AllIndices(dict: seq<Word>, ws: seq<Word>)
    requires |dict| <= DICT_SIZE && forall w :: w in ws ==> w in dict
    ensures |Payload(dict, ws)| == |ws|
  {
    if ws != [] {
      AllIndices(dict, ws[..|ws| - 1]);
    }
  }

  /** The last code is read from behind the file. */
  lemma LastIsBehind(dict: seq<Word>, image: seq<byte>, p: Plan, bits: nat -> bool)
    requires |dict| < DICT_SIZE && (forall w :: w in Words(image) ==> w in dict)
    requires Total(p) == |image| / 4 && p.rem < 128
    ensures |CompressedFile(dict, image)| < Pos(bits, Base(p), Total(p))
  {
    var n := Total(p);
    AllIndices(dict, Words(image));
    PosGrows(bits, Base(p), 0, n);
    CoverAll(p, GroupCount(n));
  }

  lemma CoverAll(p: Plan, g: nat)
    requires p.rem < 128 && g == GroupCount(Total(p))
    ensures g + g % 2 <= p.groups + p.groups % 2
  {
  }

  /** The first 256 words of memory, which the unpacker takes for the dictionary, are not all
      the same. */
  lemma TwoWords(dict: seq<Word>, image: seq<byte>, rest: seq<byte>) returns (a: byte, b: byte)
    requires 0 < |dict| < DICT_SIZE && Distinct(dict) && |rest| >= 1024 && |image| % 4 == 0 && |image| > 0
    requires forall w :: w in Words(image) ==> w in dict
    ensures DictWord(CompressedFile(dict, image) + rest, a) != DictWord(CompressedFile(dict, image) + rest, b)
  {
    var mem := CompressedFile(dict, image) + rest;
    if |dict| > 1 {
      a, b := 0, 1;
      assert WordsAt(mem, 0, dict) by {
        assert mem[..|Join(dict)|] == Join(dict);
      }
      InDictionary(dict, mem, 0);
      InDictionary(dict, mem, 1);
    } else {
      a, b := 2, 3;
      SizeAndBits(dict, image, mem);
      assert DictWord(mem, 2)[3] == mem[11] && DictWord(mem, 3)[3] == mem[15];
    }
  }

  lemma InDictionary(dict: seq<Word>, mem: seq<byte>, i: byte)
    requires WordsAt(mem, 0, dict) && i as nat < |dict| && 1024 <= |mem|
    ensures DictWord(mem, i) == dict[i]
  {
    var j := i as nat;
    WordInMemory(mem, 0, dict, j);
    assert mem[0 + 4 * j..0 + 4 * j + 4] == dict[j];
  }

  lemma SizeAndBits(dict: seq<Word>, image: seq<byte>, mem: seq<byte>)
    requires |dict| == 1 && |image| % 4 == 0 && |image| > 0 && CompressedFile(dict, image) <= mem
    requires forall w :: w in Words(image) ==> w in dict
    ensures 16 <= |mem| && mem[11] as nat % 2 == 0 && mem[15] as nat % 2 == 1
  {
    var ws := Words(image);
    var g := GroupCount(|ws|);
    var bitmap := Bitmap(dict, ws, g);
    OddBitmapWord(dict, ws);
    EvenSize(|image|);
    Sections(mem, Join(dict), BeBytes(|image|, 8), Join(bitmap), Padding(g), Payload(dict, ws));
    WordsTell(mem, BeBytes(|image|, 8), bitmap);
  }

  lemma EvenSize(n: nat)
    requires n % 4 == 0
    ensures BeBytes(n, 8)[7] as nat % 2 == 0
  {
  }

  lemma WordsTell(mem: seq<byte>, size: seq<byte>, bitmap: seq<Word>)
    requires |size| == 8 && |bitmap| > 0 && 12 + 4 * |bitmap| <= |mem|
    requires mem[4..12] == size && mem[12..12 + 4 * |bitmap|] == Join(bitmap)
    ensures mem[11] == size[7] && mem[15] == bitmap[0][3]
  {
    assert mem[11] == mem[4..12][7];
    WordInMemory(mem, 12, bitmap, 0);
    assert mem[15] == mem[12..16][3];
  }

  lemma OddBitmapWord(dict: seq<Word>, ws: seq<Word>)
    requires |ws| > 0 && forall w :: w in ws ==> w in dict
    ensures BitmapWord(dict, ws, 0)[3] as nat % 2 == 1
  {
    var bits := Bits(dict, Group(ws, 0));
    assert bits[|bits| - 1];
    assert BitsValue(bits) % 2 == 1;
  }

  /** With a short dictionary the last code is read from behind the file: changing its last
      byte changes the last word written. */
  lemma ChangeLast(dict: seq<Word>, image: seq<byte>, mem: seq<byte>, file: seq<byte>, rest: seq<byte>)
      returns (rest': seq<byte>)
    requires |dict| < DICT_SIZE && |image| % 4 == 0 && 4 <= |image| && MostFrequent(dict, Words(image))
    requires file == CompressedFile(dict, image) && mem == file + rest && |rest| >= 1024 && RunOf(mem) == Writes(image)
    ensures |rest'| == |rest| && Misread(file + rest', image)
  {
    var a, b := TwoWords(dict, image, rest);
    var x, v := OtherRun(dict, image, mem, a, b);
    rest' := rest[x - |file| := v];
    assert file + rest' == mem[x := v];
  }

  lemma OtherRun(dict: seq<Word>, image: seq<byte>, mem: seq<byte>, a: byte, b: byte) returns (x: nat, v: byte)
    requires |dict| < DICT_SIZE && (forall w :: w in Words(image) ==> w in dict) && 4 <= |image|
    requires RunOf(mem) == Writes(image) && DictWord(mem, a) != DictWord(mem, b)
    ensures |CompressedFile(dict, image)| <= x < |mem| && Misread(mem[x := v], image)
  {
    var p, bits, base, n := RunIs(mem);
    LastCode(dict, image, mem, p, bits, base, n);
    var q := Pos(bits, base, n - 1);
    x := q + Length(bits(n - 1)) - 1;
    v := OtherByte(mem, bits(n - 1), q, x, a, b);
    ChangedRun(mem, p, bits, base, n, q, x, mem[x := v]);
  }

  lemma LastCode(dict: seq<Word>, image: seq<byte>, mem: seq<byte>, p: Plan, bits: nat -> bool, base: nat, n: nat)
    requires |dict| < DICT_SIZE && (forall w :: w in Words(image) ==> w in dict)
    requires RunsBy(mem, p, bits, base, n) && n == |image| / 4 > 0
    ensures |dict| > 0 && base <= Pos(bits, base, n - 1)
    ensures |CompressedFile(dict, image)| < Pos(bits, base, n) == Pos(bits, base, n - 1) + Length(bits(n - 1))
  {
    PlanBounded(BeVal(mem[1024..BITMAP]), p);
    LastIsBehind(dict, image, p, bits);
    PosGrows(bits, base, 0, n - 1);
    assert Words(image)[0] in dict;
  }

  // ----- the ways to fail

  /** The bytes behind the last whole word do not reach the file: it is the same for another
      image, and no unpacker can restore both. */
  lemma UnalignedIsAmbiguous(dict: seq<Word>, image: seq<byte>) returns (other: seq<byte>)
    requires |dict| <= DICT_SIZE && |image| % 4 != 0
    ensures other != image && |other| == |image| && CompressedFile(dict, other) == CompressedFile(dict, image)
  {
    var n := |image| - 1;
    other := image[n := if image[n] == 0 then 1 else 0];
    assert other[n] != image[n];
    forall i | 0 <= i < |image| / 4
      ensures WordAt(other, i) == WordAt(image, i)
    {
    }
    assert Words(other) == Words(image);
  }

  lemma {:induction false} ZerosAreZero(s: seq<byte>)
    requires forall i :: 0 <= i < |s| ==> s[i] == 0
    ensures BeVal(s) == 0
  {
    if s != [] {
      ZerosAreZero(s[..|s| - 1]);
    }
  }

  lemma ZeroSize(mem: seq<byte>)
    requires 1040 <= |mem| && forall i :: 1024 <= i < BITMAP ==> mem[i] == 0
    ensures RunOf(mem) == Writes([])
  {
    ZerosAreZero(mem[1024..BITMAP]);
    var p := Plan(0, 0);
    RunWrites(mem, p, BitsOf(mem, p), BITMAP, 0);
  }

  /** An image with fewer than 256 different words whose file has at most 1024 bytes: the
      unpacker looks for the size behind the file, and with zeros there writes nothing. */
  method PackAndUnpackShort(image: seq<byte>, out: array<byte>)
    requires |image| >= 4 && |Vocabulary(Words(image))| < DICT_SIZE
    requires var n := |image| / 4; var g := GroupCount(n); 4 * |Vocabulary(Words(image))| + 8 + 4 * (g + g % 2) + n <= 1024
    modifies out
    ensures out[..] == old(out[..])
  {
    var r := Compress(image);
    FullDictionary(r.dict, Words(image));
    AllIndices(r.dict, Words(image));
    var mem := r.file + seq(1040, _ => 0);
    ZeroSize(mem);
    Unpack(mem, out);
  }
}
