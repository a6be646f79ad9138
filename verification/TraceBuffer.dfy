/** The circular trace buffer of the embedded core: what its writer leaves there and how
    the converter finds the entries again, newest first. */
module TraceBuffer {
  import opened Bytes
  import opened TraceTime

  type u30 = x: int | 0 <= x < 0x4000_0000

  datatype Format = Empty | Tiny | Big | Binary

  /** The last 8 bytes of an entry. The time and the format share a word. A tiny entry keeps
      its parameter in `complete` and `count`. */
  datatype Footer = Footer(stringId: u16, complete: byte, count: byte, ticks: u30, format: Format)

  const FOOTER: nat := 8

  function FormatOf(code: nat): Format
    requires code < 4
  {
    match code
    case 0 => Empty
    case 1 => Tiny
    case 2 => Big
    case _ => Binary
  }

  /** The time with the format bits masked out. */
  function Stamp(f: Footer): u32 { 4 * f.ticks }

  function ParmBytes(f: Footer): nat {
    match f.format
    case Big => 4 * f.count as nat
    case Binary => f.count as nat
    case _ => 0
  }

  function Padded(n: nat): nat { (n + 7) / 8 * 8 }

  function EntrySize(f: Footer): nat {
    if f.format == Empty then 0 else FOOTER + Padded(ParmBytes(f))
  }

  /** An entry taken out of the buffer, and the bytes it takes there. */
  datatype Raw = Raw(footer: Footer, parms: seq<byte>, size: nat)

  // ----- what stands before an offset

  /** The buffer as an endless sequence of bytes, the same again and again. */
  function Ring(cb: seq<byte>): int -> byte
    requires |cb| > 0
  {
    (x: int) => cb[x % |cb|]
  }

  /** `n` bytes from `start` on. */
  function Cyclic(ring: int -> byte, start: int, n: nat): (r: seq<byte>)
    ensures |r| == n
  {
    seq(n, i requires 0 <= i < n => ring(start + i))
  }

  lemma TwoBytes(s: seq<byte>)
    requires |s| == 2
    ensures BeVal(s) < 0x1_0000
  {
    assert Pow256(2) == 0x1_0000;
  }

  lemma FourBytes(s: seq<byte>)
    requires |s| == 4
    ensures BeVal(s) < POW2_32
  {
    assert Pow256(4) == POW2_32;
  }

  function ParseFooter(b: seq<byte>): Footer
    requires |b| == FOOTER
  {
    TwoBytes(b[..2]);
    FourBytes(b[4..]);
    var word := BeVal(b[4..]);
    Footer(BeVal(b[..2]), b[2], b[3], word / 4, FormatOf(word % 4))
  }

  /** What the bytes of a footer mean: the string's id, the completion flag, the count, and a
      word that holds the format below the time. */
  lemma FooterReads(b: seq<byte>)
    requires |b| == FOOTER
    ensures var f, word := ParseFooter(b), BeVal(b[4..8]);
      && f.stringId == 0x100 * b[0] as nat + b[1] as nat && f.complete == b[2] && f.count == b[3]
      && Stamp(f) == word - word % 4
      && (f.format == Empty <==> word % 4 == 0) && (f.format == Tiny <==> word % 4 == 1)
      && (f.format == Big <==> word % 4 == 2) && (f.format == Binary <==> word % 4 == 3)
  {
    assert b[..2][..1] == [b[0]] && b[..2] == [b[0], b[1]];
    assert BeVal([]) == 0;
    assert [b[0]][..0] == [];
    assert BeVal([b[0]]) == b[0] as nat;
    assert [b[0], b[1]][..1] == [b[0]];
    assert b[4..] == b[4..8];
  }

  function FooterAt(ring: int -> byte, offset: int): Footer {
    ParseFooter(Cyclic(ring, offset - FOOTER, FOOTER))
  }

  function EntryAt(ring: int -> byte, offset: int): Raw {
    var f := FooterAt(ring, offset);
    var n := EntrySize(f);
    Raw(f, if n == 0 then [] else Cyclic(ring, offset - n, n - FOOTER), n)
  }

  /** An entry whose oldest bytes are gone. */
  function Cut(e: Raw): Raw { e.(footer := e.footer.(complete := 0)) }

  /** The entries before `offset`, newest first, in the last `left` bytes; `look` finds the
      entry that ends at an offset. */
  function Walk(look: u32 -> Raw, offset: u32, left: nat): seq<Raw>
    decreases left
  {
    var e := look(offset);
    if left < FOOTER || e.size == 0 then []
    else if e.size > left then [Cut(e)]
    else [e] + Walk(look, (offset - e.size) % POW2_32, left - e.size)
  }

  function LookIn(ring: int -> byte): u32 -> Raw { (o: u32) => EntryAt(ring, o) }

  function Look(cb: seq<byte>): u32 -> Raw
    requires |cb| > 0
  {
    LookIn(Ring(cb))
  }

  /** Whatever holds of all entries looked up, cut or not, holds of all entries found. */
  lemma {:induction false} WalkAll(look: u32 -> Raw, offset: u32, left: nat, ok: Raw -> bool)
    requires forall o: u32 :: look(o).size > 0 ==> ok(look(o)) && ok(Cut(look(o)))
    ensures forall i :: 0 <= i < |Walk(look, offset, left)| ==> ok(Walk(look, offset, left)[i])
    decreases left
  {
    var e := look(offset);
    if left >= FOOTER && 0 < e.size <= left {
      WalkAll(look, (offset - e.size) % POW2_32, left - e.size, ok);
    }
  }

  /** The parameters of an entry have the length its footer says. */
  predicate Shaped(e: Raw) {
    e.footer.format != Empty && |e.parms| == Padded(ParmBytes(e.footer))
  }

  lemma CutSame(e: Raw)
    ensures Cut(e).footer.format == e.footer.format && ParmBytes(Cut(e).footer) == ParmBytes(e.footer)
  {
  }

  lemma SizeIsWhole(f: Footer)
    ensures EntrySize(f) == 0 || (EntrySize(f) >= FOOTER && EntrySize(f) == FOOTER + Padded(ParmBytes(f)))
    ensures EntrySize(f) % 8 == 0
    ensures EntrySize(f) == 0 <==> f.format == Empty
  {
  }

  lemma EntryShaped(ring: int -> byte, offset: int)
    ensures var e := EntryAt(ring, offset); e.size > 0 ==> Shaped(e) && Shaped(Cut(e))
  {
    SizeIsWhole(FooterAt(ring, offset));
    CutSame(EntryAt(ring, offset));
  }

  lemma WalkShaped(ring: int -> byte, offset: u32, left: nat)
    ensures forall i :: 0 <= i < |Walk(LookIn(ring), offset, left)| ==> Shaped(Walk(LookIn(ring), offset, left)[i])
  {
    var ok := (e: Raw) => Shaped(e);
    var look := LookIn(ring);
    forall o: u32 | look(o).size > 0
      ensures ok(look(o)) && ok(Cut(look(o)))
    {
      EntryShaped(ring, o);
    }
    WalkAll(look, offset, left, ok);
  }

  lemma StaysAligned(offset: u32, n: nat)
    requires offset % 8 == 0 && n % 8 == 0
    ensures (offset - n) % POW2_32 % 8 == 0
  {
    var x, y := offset / 8 - n / 8, POW2_32 / 8;
    assert offset - n == 8 * x;
    EightTimes(8 * x, 8 * x / POW2_32, x, y);
  }

  lemma EightTimes(a: int, q: int, x: int, y: int)
    requires a == 8 * x && POW2_32 == 8 * y && q == a / POW2_32
    ensures a % POW2_32 % 8 == 0
  {
    assert a % POW2_32 == a - POW2_32 * q == 8 * (x - y * q);
  }

  // ----- the circular copy

  predicate PowerOfTwo(n: nat) {
    n == 1 || (n > 0 && n % 2 == 0 && PowerOfTwo(n / 2))
  }

  lemma {:induction false} PowerDivides(n: nat, k: nat)
    requires PowerOfTwo(n) && n <= Pow2(k)
    ensures exists m: nat :: n * m == Pow2(k)
  {
    if n == 1 {
      assert n * Pow2(k) == Pow2(k);
    } else if k > 0 {
      PowerDivides(n / 2, k - 1);
      var m: nat :| (n / 2) * m == Pow2(k - 1);
      assert n * m == 2 * ((n / 2) * m);
    }
  }

  lemma SizeDivides(n: nat)
    requires PowerOfTwo(n) && FOOTER <= n <= 0x8000
    ensures exists m: nat :: n * m == POW2_32
  {
    Pow2Word();
    PowerDivides(n, 32);
  }

  lemma SizeIsAligned(n: nat)
    requires PowerOfTwo(n) && n >= FOOTER
    ensures n % 8 == 0
  {
    var half := n / 2;
    assert PowerOfTwo(half);
    var quarter := half / 2;
    assert PowerOfTwo(quarter);
  }

  lemma ModOfMod(x: int, m: nat, n: nat, k: nat)
    requires n > 0 && n * k == m > 0
    ensures x % m % n == x % n
  {
    var q := x / m;
    assert x == m * q + x % m;
    assert m * q == n * (k * q);
    ModPlus(x % m, n, k * q);
  }

  lemma ModPlus(x: int, n: nat, q: int)
    requires n > 0
    ensures (n * q + x) % n == x % n
  {
    var y := n * q + x;
    assert y == n * (q + x / n) + x % n;
    ModUnique(y, n, q + x / n, x % n);
  }

  lemma ModUnique(y: int, n: nat, q: int, r: nat)
    requires r < n && y == n * q + r
    ensures y % n == r
  {
    var p, s := y / n, y % n;
    assert y == n * p + s;
    assert n * (p - q) == r - s;
    Between(n, p - q);
  }

  lemma Between(n: nat, d: int)
    requires -(n as int) < n * d < n
    ensures d == 0
  {
    Grows(n, d);
  }

  lemma Grows(n: nat, d: int)
    ensures d >= 1 ==> n * d >= n
    ensures d <= -1 ==> n * d <= -(n as int)
  {
  }

  /** The masked offset of a 32-bit subtraction. */
  function At(cb: seq<byte>, offset: u32, back: nat): (r: nat)
    requires |cb| > 0
    ensures r < |cb|
  {
    (offset - back) % POW2_32 % |cb|
  }

  lemma AtIsModulo(cb: seq<byte>, offset: u32, back: nat)
    requires PowerOfTwo(|cb|) && FOOTER <= |cb| <= 0x8000
    ensures At(cb, offset, back) == (offset - back) % |cb|
  {
    SizeDivides(|cb|);
    var m: nat :| |cb| * m == POW2_32;
    ModOfMod(offset - back, POW2_32, |cb|, m);
  }

  lemma ModStep(start: int, n: nat, i: nat)
    requires n > 0 && i <= n
    ensures (start + i) % n == if start % n + i < n then start % n + i else start % n + i - n
  {
    var s := start % n;
    assert start + i == n * (start / n) + (s + i);
    ModPlus(s + i, n, start / n);
    if s + i < n {
      ModUnique(s + i, n, 0, s + i);
    } else {
      ModUnique(s + i, n, 1, s + i - n);
    }
  }

  /** One copy up to the end of the buffer and one from its start. */
  lemma CopyWraps(cb: seq<byte>, start: int, n: nat)
    requires 0 < |cb| && n <= |cb|
    ensures var s := start % |cb|;
      Cyclic(Ring(cb), start, n) == if s + n <= |cb| then cb[s..s + n] else cb[s..] + cb[..s + n - |cb|]
  {
    var s := start % |cb|;
    forall i | 0 <= i < n
      ensures Cyclic(Ring(cb), start, n)[i] == cb[if s + i < |cb| then s + i else s + i - |cb|]
    {
      ModStep(start, |cb|, i);
    }
  }

  /** What the converter demands of an entry: it fits its local copy and the buffer. */
  predicate Bounded(cb: seq<byte>, f: Footer) {
    ParmBytes(f) <= 256 && Padded(ParmBytes(f)) <= |cb|
  }

  predicate Usable(cb: seq<byte>) { PowerOfTwo(|cb|) && FOOTER <= |cb| <= 0x8000 }

  lemma FooterInPlace(cb: seq<byte>, offset: u32)
    requires Usable(cb) && offset % 8 == 0
    ensures At(cb, offset, FOOTER) + FOOTER <= |cb|
    ensures Cyclic(Ring(cb), offset - FOOTER, FOOTER) == cb[At(cb, offset, FOOTER)..][..FOOTER]
  {
    AtIsModulo(cb, offset, FOOTER);
    SizeIsAligned(|cb|);
    Aligned(offset - FOOTER, |cb|);
    InOnePiece(cb, offset - FOOTER, FOOTER);
  }

  lemma InOnePiece(cb: seq<byte>, start: int, n: nat)
    requires 0 < |cb| && start % |cb| + n <= |cb|
    ensures Cyclic(Ring(cb), start, n) == cb[start % |cb|..][..n]
  {
    CopyWraps(cb, start, n);
    SliceOfTail(cb, start % |cb|, n);
  }

  lemma SliceOfTail(cb: seq<byte>, s: nat, n: nat)
    requires s + n <= |cb|
    ensures cb[s..][..n] == cb[s..s + n]
  {
  }

  lemma Aligned(x: int, n: nat)
    requires n > 0 && n % 8 == 0 && x % 8 == 0
    ensures x % n % 8 == 0 && x % n + 8 <= n
  {
    var r, q, m := x % n, x / n, n / 8;
    assert x == n * q + r;
    assert n * q == 8 * (m * q);
  }

  /** The copy of an entry's data: up to the end of the buffer, then from its start. */
  method CopyAround(cb: seq<byte>, start: nat, ghost from: int, n: nat) returns (r: seq<byte>)
    requires 0 < |cb| && n <= |cb| && start == from % |cb|
    ensures r == Cyclic(Ring(cb), from, n)
  {
    var bytesLeft := |cb| - start;
    var toCopy := if n < bytesLeft then n else bytesLeft;
    r := cb[start..start + toCopy];
    if toCopy < n {
      r := r + cb[..n - toCopy];
    }
    CopyWraps(cb, from, n);
  }

  method Sizes(f: Footer) returns (parmSize: nat, size: nat)
    ensures size == EntrySize(f) && parmSize == Padded(ParmBytes(f))
    ensures if size == 0 then parmSize == 0 else size == FOOTER + parmSize
  {
    parmSize := 0;
    match f.format {
      case Tiny => size := FOOTER;
      case Big => parmSize, size := 4 * f.count as nat, FOOTER;
      case Binary => parmSize, size := f.count as nat, FOOTER;
      case Empty => size := 0;
    }
    parmSize := (parmSize + 7) / 8 * 8;
    size := size + parmSize;
  }

  /** The footer lies in one piece. */
  method GetFooter(cb: seq<byte>, offset: u32) returns (f: Footer)
    requires Usable(cb) && offset % 8 == 0
    ensures f == FooterAt(Ring(cb), offset)
  {
    FooterInPlace(cb, offset);
    f := ParseFooter(cb[At(cb, offset, FOOTER)..][..FOOTER]);
  }

  method GetParms(cb: seq<byte>, offset: u32, size: nat, n: nat) returns (parms: seq<byte>)
    requires Usable(cb) && n <= |cb|
    ensures parms == Cyclic(Ring(cb), offset - size, n)
  {
    AtIsModulo(cb, offset, size);
    parms := CopyAround(cb, At(cb, offset, size), offset - size, n);
  }

  lemma EntryAtIs(ring: int -> byte, offset: int, f: Footer, parms: seq<byte>, size: nat, n: nat)
    requires f == FooterAt(ring, offset) && size == EntrySize(f) && parms == Cyclic(ring, offset - size, n)
    requires if size == 0 then n == 0 else size == FOOTER + n
    ensures EntryAt(ring, offset) == Raw(f, parms, size)
  {
  }

  /** `ppe_get_entry` */
  method GetEntry(cb: seq<byte>, offset: u32) returns (e: Raw)
    requires Usable(cb) && offset % 8 == 0 && Bounded(cb, FooterAt(Ring(cb), offset))
    ensures e == EntryAt(Ring(cb), offset)
  {
    var footer := GetFooter(cb, offset);
    var parmSize, size := Sizes(footer);
    var parms := GetParms(cb, offset, size, parmSize);
    EntryAtIs(Ring(cb), offset, footer, parms, size, parmSize);
    e := Raw(footer, parms, size);
  }
}
