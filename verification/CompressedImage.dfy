/** The compressed base image: a dictionary of the image's most frequent four-byte
    words, the image's size, a bitmap with one bit per word, and a payload holding
    one byte for a dictionary word and four for any other. */
module CompressedImage {
  import opened Bytes

  type Word = w: seq<byte> | |w| == 4 witness [0, 0, 0, 0]

  const DICT_SIZE: nat := 256

  function WordAt(image: seq<byte>, i: nat): Word
    requires 4 * i + 4 <= |image|
  {
    image[4 * i..4 * i + 4]
  }

  function Words(image: seq<byte>): seq<Word> {
    seq(|image| / 4, i requires 0 <= i < |image| / 4 => WordAt(image, i))
  }

  /** The first position of `w`. */
  function IndexOf(dict: seq<Word>, w: Word): (i: nat)
    requires w in dict
    ensures i < |dict| && dict[i] == w && w !in dict[..i]
  {
    if dict[0] == w then 0 else 1 + IndexOf(dict[1..], w)
  }

  /** The words' bytes in order. */
  function Join(ws: seq<Word>): (s: seq<byte>)
    ensures |s| == 4 * |ws|
  {
    if ws == [] then [] else Join(ws[..|ws| - 1]) + ws[|ws| - 1]
  }

  function EncodeWord(dict: seq<Word>, w: Word): seq<byte>
    requires |dict| <= DICT_SIZE
  {
    if w in dict then [IndexOf(dict, w) as byte] else w
  }

  function Payload(dict: seq<Word>, ws: seq<Word>): seq<byte>
    requires |dict| <= DICT_SIZE
  {
    if ws == [] then [] else Payload(dict, ws[..|ws| - 1]) + EncodeWord(dict, ws[|ws| - 1])
  }

  /** The bitmap's bits: which words the dictionary holds. */
  function Bits(dict: seq<Word>, ws: seq<Word>): seq<bool> {
    seq(|ws|, i requires 0 <= i < |ws| => ws[i] in dict)
  }

  /** The number a string of bits denotes, most significant bit first. */
  function BitsValue(bits: seq<bool>): (v: nat)
    ensures v < Pow2(|bits|)
  {
    if bits == [] then 0
    else 2 * BitsValue(bits[..|bits| - 1]) + (if bits[|bits| - 1] then 1 else 0)
  }

  /** The number of 32-bit bitmap words for `n` image words. */
  function GroupCount(n: nat): nat { (n + 31) / 32 }

  function Group(ws: seq<Word>, g: nat): seq<Word>
    requires g < GroupCount(|ws|)
  {
    ws[32 * g..if 32 * g + 32 <= |ws| then 32 * g + 32 else |ws|]
  }

  function BitmapWord(dict: seq<Word>, ws: seq<Word>, g: nat): Word
    requires g < GroupCount(|ws|)
  {
    BeBytes(BitsValue(Bits(dict, Group(ws, g))), 4)
  }

  /** The first `n` words of the bitmap. The last may hold fewer than 32 bits. */
  function Bitmap(dict: seq<Word>, ws: seq<Word>, n: nat): (s: seq<Word>)
    requires n <= GroupCount(|ws|)
    ensures |s| == n
  {
    seq(n, g requires 0 <= g < n => BitmapWord(dict, ws, g))
  }

  function Padding(g: nat): seq<byte> {
    if g % 2 == 0 then [] else [0, 0, 0, 0]
  }

  /** Everything before the payload. */
  function Preamble(dict: seq<Word>, image: seq<byte>): seq<byte> {
    var ws := Words(image);
    var g := GroupCount(|ws|);
    Join(dict) + BeBytes(|image|, 8) + Join(Bitmap(dict, ws, g)) + Padding(g)
  }

  function CompressedFile(dict: seq<Word>, image: seq<byte>): seq<byte>
    requires |dict| <= DICT_SIZE
  {
    Preamble(dict, image) + Payload(dict, Words(image))
  }

  // ----- reading the format back

  lemma SliceOfConcat(a: seq<byte>, b: seq<byte>, k: nat)
    requires |b| == 4 && k + 4 <= |a| + 4 && (k + 4 <= |a| || k == |a|)
    ensures (a + b)[k..k + 4] == if k == |a| then b else a[k..k + 4]
  {
  }

  lemma {:induction false} JoinAt(ws: seq<Word>, i: nat)
    requires i < |ws|
    ensures Join(ws)[4 * i..4 * i + 4] == ws[i]
  {
    var n := |ws| - 1;
    SliceOfConcat(Join(ws[..n]), ws[n], 4 * i);
    if i < n {
      JoinAt(ws[..n], i);
    }
  }

  lemma PayloadGrows(dict: seq<Word>, ws: seq<Word>, t: nat)
    requires |dict| <= DICT_SIZE && t < |ws|
    ensures Payload(dict, ws[..t + 1]) == Payload(dict, ws[..t]) + EncodeWord(dict, ws[t])
  {
    assert ws[..t + 1][..t] == ws[..t];
  }

  /** The payload of the first words is a prefix of the whole. */
  lemma {:induction false} PayloadPrefix(dict: seq<Word>, ws: seq<Word>, t: nat)
    requires |dict| <= DICT_SIZE && t <= |ws|
    ensures Payload(dict, ws[..t]) <= Payload(dict, ws)
    decreases |ws| - t
  {
    if t == |ws| {
      assert ws[..t] == ws;
    } else {
      PayloadGrows(dict, ws, t);
      PayloadPrefix(dict, ws, t + 1);
      PrefixOfPrefix(Payload(dict, ws[..t]), EncodeWord(dict, ws[t]), Payload(dict, ws));
    }
  }

  lemma PrefixOfPrefix(a: seq<byte>, b: seq<byte>, c: seq<byte>)
    requires a + b <= c
    ensures a <= c && c[|a|..|a| + |b|] == b
  {
    assert c[..|a + b|] == a + b;
  }

  /** Where a word's code lies in the payload. */
  lemma PayloadCode(dict: seq<Word>, ws: seq<Word>, t: nat)
    requires |dict| <= DICT_SIZE && t < |ws|
    ensures var q, code := |Payload(dict, ws[..t])|, EncodeWord(dict, ws[t]);
      && q + |code| == |Payload(dict, ws[..t + 1])| <= |Payload(dict, ws)|
      && Payload(dict, ws)[q..q + |code|] == code
  {
    PayloadGrows(dict, ws, t);
    PayloadPrefix(dict, ws, t + 1);
    PrefixOfPrefix(Payload(dict, ws[..t]), EncodeWord(dict, ws[t]), Payload(dict, ws));
  }

  /** Shifting bit `j` from the right down to the units gives that bit. */
  lemma {:induction false} BitsValueAt(bits: seq<bool>, j: nat)
    requires j < |bits|
    ensures ShiftRight(BitsValue(bits), j) % 2 == (if bits[|bits| - 1 - j] then 1 else 0)
  {
    if j > 0 {
      BitsValueAt(bits[..|bits| - 1], j - 1);
    }
  }
}
