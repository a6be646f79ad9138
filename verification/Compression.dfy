/** `compress`: packs a base image, choosing the dictionary by frequency. */
module Compression {
  import opened Bytes
  import opened CompressedImage
  import opened Decompression

  ghost function Vocabulary(ws: seq<Word>): set<Word> { set w | w in ws }

  /** `counts` holds how often each word of `ws` occurs. */
  ghost predicate CountsOf(counts: map<Word, nat>, ws: seq<Word>) {
    counts.Keys == Vocabulary(ws) && forall w :: w in counts ==> counts[w] == multiset(ws)[w]
  }

  method CountWords(ws: seq<Word>) returns (counts: map<Word, nat>)
    ensures CountsOf(counts, ws)
  {
    counts := map[];
    for i := 0 to |ws|
      invariant CountsOf(counts, ws[..i])
    {
      assert ws[..i + 1] == ws[..i] + [ws[i]];
      if ws[i] in counts {
        counts := counts[ws[i] := counts[ws[i]] + 1];
      } else {
        counts := counts[ws[i] := 1];
      }
    }
    assert ws[..|ws|] == ws;
  }

  ghost predicate Descending(s: seq<Word>, counts: map<Word, nat>) {
    && (forall w :: w in s ==> w in counts)
    && forall i, j :: 0 <= i < j < |s| ==> counts[s[i]] >= counts[s[j]]
  }

  /** Inserts `w` after every word at least as frequent. */
  method Insert(s: seq<Word>, w: Word, counts: map<Word, nat>) returns (r: seq<Word>)
    requires Descending(s, counts) && Distinct(s) && w in counts && w !in s
    ensures Descending(r, counts) && Distinct(r) && |r| == |s| + 1
    ensures forall x :: x in r <==> x in s || x == w
  {
    var k := 0;
    while k < |s| && counts[s[k]] >= counts[w]
      invariant 0 <= k <= |s| && forall i :: 0 <= i < k ==> counts[s[i]] >= counts[w]
    {
      k := k + 1;
    }
    r := s[..k] + [w] + s[k..];
    InsertedAt(s, w, k, counts);
  }

  lemma InsertedAt(s: seq<Word>, w: Word, k: nat, counts: map<Word, nat>)
    requires Descending(s, counts) && Distinct(s) && w in counts && w !in s && k <= |s|
    requires (forall i :: 0 <= i < k ==> counts[s[i]] >= counts[w]) && (k < |s| ==> counts[s[k]] < counts[w])
    ensures var r := s[..k] + [w] + s[k..]; Descending(r, counts) && Distinct(r) && forall x :: x in r <==> x in s || x == w
  {
    var r := s[..k] + [w] + s[k..];
    SameMembers(s, w, k);
    forall i, j | 0 <= i < j < |r|
      ensures r[i] != r[j] && counts[r[i]] >= counts[r[j]]
    {
      InsertedPair(s, w, k, counts, r, i, j);
    }
  }

  lemma SameMembers(s: seq<Word>, w: Word, k: nat)
    requires k <= |s|
    ensures forall x :: x in s[..k] + [w] + s[k..] <==> x in s || x == w
  {
    var r := s[..k] + [w] + s[k..];
    forall x
      ensures x in r <==> x in s || x == w
    {
      assert x in s <==> x in s[..k] || x in s[k..] by {
        assert s == s[..k] + s[k..];
      }
    }
  }

  lemma InsertedPair(s: seq<Word>, w: Word, k: nat, counts: map<Word, nat>, r: seq<Word>, i: nat, j: nat)
    requires Descending(s, counts) && Distinct(s) && w in counts && w !in s && k <= |s|
    requires (forall i :: 0 <= i < k ==> counts[s[i]] >= counts[w]) && (k < |s| ==> counts[s[k]] < counts[w])
    requires r == s[..k] + [w] + s[k..] && i < j < |r|
    ensures r[i] in counts && r[j] in counts && r[i] != r[j] && counts[r[i]] >= counts[r[j]]
  {
    var i', j' := if i < k then i else i - 1, if j < k then j else j - 1;
    if i == k {
      assert r[i] == w && r[j] == s[j'] && s[j'] in s;
      assert k < j' ==> counts[s[k]] >= counts[s[j']];
    } else if j == k {
      assert r[j] == w && r[i] == s[i'] && s[i'] in s;
    } else {
      assert r[i] == s[i'] && r[j] == s[j'] && i' < j' && s[i'] in s && s[j'] in s;
    }
  }

  /** The words in descending order of frequency; ties come in any order. */
  method SortByCount(counts: map<Word, nat>) returns (s: seq<Word>)
    ensures Descending(s, counts) && Distinct(s) && |s| == |counts|
    ensures forall x :: x in s <==> x in counts
  {
    s := [];
    var left := counts.Keys;
    while left != {}
      invariant left <= counts.Keys && |s| + |left| == |counts|
      invariant Descending(s, counts) && Distinct(s)
      invariant forall x :: x in s <==> x in counts && x !in left
      decreases left
    {
      var w :| w in left;
      s := Insert(s, w, counts);
      left := left - {w};
    }
  }

  /** No word left out of `dict` is more frequent than one in it. */
  ghost predicate Dominates(dict: seq<Word>, ws: seq<Word>) {
    forall w, d :: w in ws && w !in dict && d in dict ==> multiset(ws)[d] >= multiset(ws)[w]
  }

  /** A dictionary of the most frequent words: none is left out while there is room. */
  ghost predicate MostFrequent(dict: seq<Word>, ws: seq<Word>) {
    && |dict| <= DICT_SIZE && Distinct(dict)
    && (forall w :: w in dict ==> w in ws)
    && (|dict| < DICT_SIZE ==> forall w :: w in ws ==> w in dict)
    && Dominates(dict, ws)
  }

  /** A word past the cut is no more frequent than one before it. */
  lemma CutKeepsFrequent(sorted: seq<Word>, n: nat, counts: map<Word, nat>, w: Word, d: Word)
    requires Descending(sorted, counts) && n <= |sorted|
    requires w in sorted && w !in sorted[..n] && d in sorted[..n]
    ensures counts[d] >= counts[w]
  {
    assert sorted == sorted[..n] + sorted[n..];
    var j :| 0 <= j < |sorted| - n && sorted[n..][j] == w;
    var i :| 0 <= i < n && sorted[..n][i] == d;
    assert counts[sorted[i]] >= counts[sorted[n + j]];
  }

  lemma CutDominates(sorted: seq<Word>, n: nat, counts: map<Word, nat>, ws: seq<Word>)
    requires CountsOf(counts, ws) && Descending(sorted, counts) && n <= |sorted|
    requires forall x :: x in counts ==> x in sorted
    ensures Dominates(sorted[..n], ws)
  {
    var dict := sorted[..n];
    forall w, d | w in ws && w !in dict && d in dict
      ensures multiset(ws)[d] >= multiset(ws)[w]
    {
      CutKeepsFrequent(sorted, n, counts, w, d);
    }
  }

  method ChooseDictionary(ws: seq<Word>) returns (dict: seq<Word>)
    ensures MostFrequent(dict, ws)
    ensures |dict| == if |Vocabulary(ws)| < DICT_SIZE then |Vocabulary(ws)| else DICT_SIZE
  {
    var counts := CountWords(ws);
    var sorted := SortByCount(counts);
    var n := if |sorted| <= DICT_SIZE then |sorted| else DICT_SIZE;
    CutIsMostFrequent(sorted, n, counts, ws);
    assert |counts| == |counts.Keys|;
    dict := sorted[..n];
  }

  lemma CutIsMostFrequent(sorted: seq<Word>, n: nat, counts: map<Word, nat>, ws: seq<Word>)
    requires CountsOf(counts, ws) && Descending(sorted, counts) && Distinct(sorted)
    requires forall x :: x in counts <==> x in sorted
    requires n == if |sorted| <= DICT_SIZE then |sorted| else DICT_SIZE
    ensures MostFrequent(sorted[..n], ws)
  {
    CutDominates(sorted, n, counts, ws);
    forall w | w in sorted[..n]
      ensures w in ws
    {
      assert w in sorted && w in counts;
    }
    if n < DICT_SIZE {
      assert sorted[..n] == sorted;
    }
  }

  // ----- writing the file

  method WriteDictionary(dict: seq<Word>) returns (file: seq<byte>)
    ensures file == Join(dict)
  {
    file := [];
    for i := 0 to |dict|
      invariant file == Join(dict[..i])
    {
      JoinStep(dict, i);
      file := file + dict[i];
    }
    assert dict[..|dict|] == dict;
  }

  lemma BitsAppend(dict: seq<Word>, ws: seq<Word>, lo: nat, i: nat)
    requires lo <= i < |ws|
    ensures Bits(dict, ws[lo..i + 1]) == Bits(dict, ws[lo..i]) + [ws[i] in dict]
  {
  }

  lemma BitmapAppend(dict: seq<Word>, ws: seq<Word>, g: nat)
    requires g < GroupCount(|ws|)
    ensures Join(Bitmap(dict, ws, g + 1)) == Join(Bitmap(dict, ws, g)) + BitmapWord(dict, ws, g)
  {
    assert Bitmap(dict, ws, g + 1)[..g] == Bitmap(dict, ws, g);
  }

  /** One 32-bit word for every 32 image words, a shorter string of bits for the rest. */
  method WriteBitmap(dict: seq<Word>, ws: seq<Word>) returns (file: seq<byte>, count: nat)
    ensures count == GroupCount(|ws|) && file == Join(Bitmap(dict, ws, count))
  {
    file, count := [], 0;
    var strBits: seq<bool> := [];
    for i := 0 to |ws|
      invariant if i < |ws| then 32 * count <= i < 32 * count + 32 else count == GroupCount(|ws|)
      invariant count <= GroupCount(|ws|) && file == Join(Bitmap(dict, ws, count))
      invariant i < |ws| ==> strBits == Bits(dict, ws[32 * count..i])
    {
      BitsAppend(dict, ws, 32 * count, i);
      strBits := strBits + [ws[i] in dict];
      if |strBits| == 32 || i == |ws| - 1 {
        BitmapAppend(dict, ws, count);
        assert ws[32 * count..i + 1] == Group(ws, count);
        file := file + BeBytes(BitsValue(strBits), 4);
        strBits := [];
        count := count + 1;
      }
    }
  }

  method WritePayload(dict: seq<Word>, ws: seq<Word>) returns (file: seq<byte>)
    requires |dict| <= DICT_SIZE
    ensures file == Payload(dict, ws)
  {
    file := [];
    for i := 0 to |ws|
      invariant file == Payload(dict, ws[..i])
    {
      PayloadGrows(dict, ws, i);
      if ws[i] in dict {
        file := file + [IndexOf(dict, ws[i]) as byte];
      } else {
        file := file + ws[i];
      }
    }
    assert ws[..|ws|] == ws;
  }

  datatype Outcome = TooSmall | Packed(dict: seq<Word>, file: seq<byte>)

  /** Packs an image of at least four bytes with a most frequent dictionary. */
  method Compress(image: seq<byte>) returns (r: Outcome)
    ensures r.TooSmall? <==> |image| < 4
    ensures r.Packed? ==>
      && MostFrequent(r.dict, Words(image))
      && |r.dict| == (if |Vocabulary(Words(image))| < DICT_SIZE then |Vocabulary(Words(image))| else DICT_SIZE)
      && r.file == CompressedFile(r.dict, image)
  {
    if |image| < 4 {
      return TooSmall;
    }
    var ws := Words(image);
    var dict := ChooseDictionary(ws);
    var file := WriteDictionary(dict);
    file := file + BeBytes(|image|, 8);
    var bitmap, count := WriteBitmap(dict, ws);
    file := file + bitmap;
    if count % 2 != 0 {
      file := file + BeBytes(0, 4);
    }
    var payload := WritePayload(dict, ws);
    file := file + payload;
    ZeroWord();
    r := Packed(dict, file);
  }

  lemma ZeroWord()
    ensures BeBytes(0, 4) == [0, 0, 0, 0]
  {
    assert BeBytes(0, 2) == [0, 0];
  }

  /** Packing an image and unpacking it wherever it lies in memory, whatever follows it,
      restores the image: for every word-aligned image with at least 256 different words. */
  method PackAndUnpack(image: seq<byte>, rest: seq<byte>, out: array<byte>)
    requires |image| % 4 == 0 && |image| <= MAX_IMAGE && |image| <= out.Length
    requires |Vocabulary(Words(image))| >= DICT_SIZE && |rest| >= 8
    modifies out
    ensures out[..|image|] == image
    ensures out[|image|..] == old(out[|image|..])
  {
    VocabularySize(Words(image));
    var r := Compress(image);
    Decompress(r.file + rest, out, r.dict, image);
  }

  // ----- the dictionary is the best one

  /** How many words of `ws` lie in `s`. */
  ghost function Hits(s: set<Word>, ws: seq<Word>): nat {
    if ws == [] then 0 else Hits(s, ws[..|ws| - 1]) + (if ws[|ws| - 1] in s then 1 else 0)
  }

  lemma {:induction false} PayloadLength(dict: seq<Word>, ws: seq<Word>)
    requires |dict| <= DICT_SIZE
    ensures |Payload(dict, ws)| == 4 * |ws| - 3 * Hits(Vocabulary(dict), ws)
  {
    if ws != [] {
      PayloadLength(dict, ws[..|ws| - 1]);
    }
  }

  lemma {:induction false} HitsAdd(s: set<Word>, w: Word, ws: seq<Word>)
    requires w !in s
    ensures Hits(s + {w}, ws) == Hits(s, ws) + multiset(ws)[w]
  {
    if ws != [] {
      HitsAdd(s, w, ws[..|ws| - 1]);
      assert ws == ws[..|ws| - 1] + [ws[|ws| - 1]];
    }
  }

  lemma {:induction false} HitsMonotone(s: set<Word>, t: set<Word>, ws: seq<Word>)
    requires s <= t
    ensures Hits(s, ws) <= Hits(t, ws)
  {
    if ws != [] {
      HitsMonotone(s, t, ws[..|ws| - 1]);
    }
  }

  lemma {:induction false} VocabularySize(s: seq<Word>)
    ensures |Vocabulary(s)| <= |s|
    ensures Distinct(s) ==> |Vocabulary(s)| == |s|
  {
    if s != [] {
      VocabularySize(s[1..]);
      assert Vocabulary(s) == {s[0]} + Vocabulary(s[1..]);
    }
  }

  /** One exchange: a word outside the dictionary for one inside. */
  lemma Exchange(dict: seq<Word>, r: set<Word>, x: Word, y: Word, ws: seq<Word>)
    requires MostFrequent(dict, ws) && x !in r && x !in dict && y !in r && y in dict
    ensures Hits(r + {x}, ws) <= Hits(r + {y}, ws)
  {
    HitsAdd(r, x, ws);
    HitsAdd(r, y, ws);
  }

  /** Exchange argument: words of `s` outside the dictionary are traded for words of it. */
  lemma {:induction false} BestHits(dict: seq<Word>, s: set<Word>, ws: seq<Word>)
    requires MostFrequent(dict, ws) && |s| <= DICT_SIZE
    ensures Hits(s, ws) <= Hits(Vocabulary(dict), ws)
    decreases |s - Vocabulary(dict)|
  {
    var t := Vocabulary(dict);
    if s <= t {
      HitsMonotone(s, t, ws);
    } else {
      var x :| x in s && x !in t;
      var r := s - {x};
      assert r + {x} == s;
      if x !in ws {
        HitsAdd(r, x, ws);
        Smaller(s, r, t, x);
        BestHits(dict, r, ws);
      } else {
        var y := Replacement(dict, r, x, ws);
        Exchange(dict, r, x, y, ws);
        Smaller(s, r + {y}, t, x);
        BestHits(dict, r + {y}, ws);
      }
    }
  }

  lemma Smaller(s: set<Word>, s': set<Word>, t: set<Word>, x: Word)
    requires x in s && x !in t && x !in s' && s' - t <= s - t
    ensures |s' - t| < |s - t|
  {
    SubsetCardinality(s' - t, (s - t) - {x});
  }

  /** A dictionary that leaves out a word of the image is full, so it has a word to give. */
  lemma Replacement(dict: seq<Word>, r: set<Word>, x: Word, ws: seq<Word>) returns (y: Word)
    requires MostFrequent(dict, ws) && x in ws && x !in dict && |r| < DICT_SIZE
    ensures y in dict && y !in r
  {
    VocabularySize(dict);
    y := Missing(r, Vocabulary(dict));
  }

  lemma Missing(r: set<Word>, t: set<Word>) returns (y: Word)
    requires |r| < |t|
    ensures y in t && y !in r
  {
    SubsetCardinality(t, r);
    assert exists y :: y in t && y !in r by {
      assert !(t <= r);
    }
    y :| y in t && y !in r;
  }

  lemma SubsetCardinality(a: set<Word>, b: set<Word>)
    ensures a <= b ==> |a| <= |b|
  {
    if a <= b {
      assert b == a + (b - a);
    }
  }

  /** No other dictionary of at most 256 words gives a shorter payload for the image. */
  lemma DictionaryIsOptimal(dict: seq<Word>, other: seq<Word>, ws: seq<Word>)
    requires MostFrequent(dict, ws) && |other| <= DICT_SIZE
    ensures |Payload(dict, ws)| <= |Payload(other, ws)|
  {
    PayloadLength(dict, ws);
    PayloadLength(other, ws);
    VocabularySize(other);
    BestHits(dict, Vocabulary(other), ws);
  }
}
