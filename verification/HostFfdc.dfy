/** `sendOverHostIntf`: the internal failure data package into a host buffer of limited
    size, through the granule interface. */
module HostFfdc {
  import opened Bytes
  import opened MemAccess
  import Fifo
  import opened Response

  function Least(a: nat, b: nat): nat { if a < b then a else b }

  /** `MEM_AVAILABLE_CHECK`: never more than what is left, and final once it is cut. */
  method MemAvailableCheck(available: nat, length: nat, isLast: bool) returns (left: nat, granted: nat, last: bool)
    ensures granted == Least(length, available) && left == available - granted
    ensures last <==> isLast || length > available
  {
    granted, last := length, isLast;
    if length > available {
      granted, last := available, true;
    }
    left := available - granted;
  }

  /** The words as bytes. */
  function WordBytes(ws: seq<u32>): (s: seq<byte>)
    ensures |s| == 4 * |ws|
  {
    if ws == [] then [] else WordBytes(ws[..|ws| - 1]) + BeBytes(ws[|ws| - 1], 4)
  }

  /** Each word is read back from its four bytes. */
  lemma {:induction false} WordBytesAt(ws: seq<u32>, i: nat)
    requires i < |ws|
    ensures BeVal(WordBytes(ws)[4 * i..4 * i + 4]) == ws[i]
  {
    var n := |ws| - 1;
    var front, last := WordBytes(ws[..n]), BeBytes(ws[n], 4);
    if i < n {
      WordBytesAt(ws[..n], i);
      assert (front + last)[4 * i..4 * i + 4] == front[4 * i..4 * i + 4];
    } else {
      assert Pow256(4) == POW2_32;
      BeRoundTrip(ws[n], 4);
      assert (front + last)[4 * n..4 * n + 4] == last;
    }
  }

  lemma Associate(a: seq<byte>, b: seq<byte>, c: seq<byte>)
    ensures a + b + c == a + (b + c)
  {
  }

  lemma {:induction false} WordBytesConcat(a: seq<u32>, b: seq<u32>)
    ensures WordBytes(a + b) == WordBytes(a) + WordBytes(b)
  {
    if b == [] {
      assert a + b == a;
    } else {
      var c, l := b[..|b| - 1], b[|b| - 1];
      WordBytesConcat(a, c);
      assert (a + b)[..|a + b| - 1] == a + c && (a + b)[|a + b| - 1] == l;
      var last := BeBytes(l, 4);
      assert WordBytes(b) == WordBytes(c) + last && WordBytes(a + b) == WordBytes(a + c) + last;
      Associate(WordBytes(a), WordBytes(c), last);
    }
  }

  /** After offering `offered` bytes to a host buffer of `room` bytes: it holds as much
      of them as fits; once the end is marked the last granule is completed with zeros. */
  ghost predicate Held(m: Interface, had: seq<byte>, offered: seq<byte>, room: nat, available: nat, last: bool, pad: nat)
    reads m, m.buffer
  {
    && m.Valid() && !m.reading && m.depth < m.granule && pad < m.granule
    && available == room - Least(room, |offered|)
    && m.Accepted() == had + offered[..Least(room, |offered|)] + Zeros(pad)
    && (last ==> m.depth == 0) && (!last ==> pad == 0)
  }

  lemma CutConcat(a: seq<byte>, b: seq<byte>, room: nat)
    ensures (a + b)[..Least(room, |a + b|)]
         == a[..Least(room, |a|)] + b[..Least(|b|, room - Least(room, |a|))]
  {
  }

  lemma ZerosEnd(had: seq<byte>, a: seq<byte>, p: nat, b: seq<byte>, q: nat)
    requires p == 0 || (b == [] && q == 0)
    ensures had + a + Zeros(p) + b + Zeros(q) == had + (a + b) + Zeros(p + q)
  {
  }

  /** Offers one more piece; `closing` marks the end of the package. */
  method SendPiece(m: Interface, piece: seq<byte>, available: nat, isLast: bool, closing: bool,
                   ghost had: seq<byte>, ghost offered: seq<byte>, ghost room: nat, ghost pad: nat)
      returns (rc: Rc, left: nat, last: bool, ghost pad': nat)
    requires Held(m, had, offered, room, available, isLast, pad) && (isLast ==> available == 0)
    modifies m, m.buffer
    ensures rc == Success ==>
      && Held(m, had, offered + piece, room, left, last, pad')
      && (last <==> isLast || closing || |piece| > available) && (last && !closing ==> left == 0)
  {
    var granted;
    ghost var q;
    left, granted, last := MemAvailableCheck(available, |piece|, isLast);
    last := last || closing;
    CutConcat(offered, piece, room);
    rc, q := m.Write(piece[..granted], last);
    pad' := pad + q;
    if rc == Success {
      ZerosEnd(had, offered[..Least(room, |offered|)], pad, piece[..granted], q);
    }
  }

  function IdBytes(b: Blob): seq<byte>
    requires Announceable(b)
  {
    WordBytes([Pack(b.id, 4 * |b.words|)])
  }

  function BlobBytes(b: Blob, config: u16): seq<byte>
    requires Announceable(b)
  {
    if Selected(b, config) then IdBytes(b) + WordBytes(b.words) else []
  }

  /** The bytes of the package's body, blob by blob. */
  function BodyBytes(blobs: seq<Blob>, config: u16): seq<byte>
    requires forall k :: 0 <= k < |blobs| ==> Announceable(blobs[k])
  {
    if blobs == [] then []
    else BodyBytes(blobs[..|blobs| - 1], config) + BlobBytes(blobs[|blobs| - 1], config)
  }

  lemma {:induction false} BodyBytesAre(blobs: seq<Blob>, config: u16)
    requires forall k :: 0 <= k < |blobs| ==> Announceable(blobs[k])
    ensures BodyBytes(blobs, config) == WordBytes(Body(blobs, config))
  {
    if blobs != [] {
      var before, b := blobs[..|blobs| - 1], blobs[|blobs| - 1];
      BodyBytesAre(before, config);
      if Selected(b, config) {
        WordBytesConcat(Body(before, config), BlobWords(b));
        WordBytesConcat([Pack(b.id, 4 * |b.words|)], b.words);
      } else {
        assert Body(before, config) + [] == Body(before, config);
      }
    }
  }

  lemma BodyBytesStep(headers: seq<byte>, blobs: seq<Blob>, config: u16, i: nat)
    requires i < |blobs| && forall k :: 0 <= k < |blobs| ==> Announceable(blobs[k])
    ensures headers + BodyBytes(blobs[..i + 1], config)
         == headers + BodyBytes(blobs[..i], config) + BlobBytes(blobs[i], config)
  {
    assert blobs[..i + 1][..i] == blobs[..i];
  }

  predicate LastSelected(blobs: seq<Blob>, config: u16) {
    blobs != [] && Selected(blobs[|blobs| - 1], config)
  }

  /** A blob: identifier and contents as separate pieces. */
  method SendBlob(m: Interface, b: Blob, available: nat, isLast: bool, closing: bool,
                  ghost had: seq<byte>, ghost offered: seq<byte>, ghost room: nat, ghost pad: nat)
      returns (rc: Rc, left: nat, last: bool, ghost pad': nat)
    requires Announceable(b) && Held(m, had, offered, room, available, isLast, pad) && (isLast <==> |offered| > room)
    modifies m, m.buffer
    ensures rc == Success ==>
      var more := offered + (IdBytes(b) + WordBytes(b.words));
      Held(m, had, more, room, left, last, pad') && (last <==> |more| > room || closing)
  {
    var id, contents := IdBytes(b), WordBytes(b.words);
    rc, left, last, pad' := SendPiece(m, id, available, isLast, false, had, offered, room, pad);
    if rc != Success {
      return;
    }
    Associate(offered, id, contents);
    rc, left, last, pad' := SendPiece(m, contents, left, last, closing, had, offered + id, room, pad');
  }

  /** The selected blobs; the contents of the last blob of the table mark the end. */
  method SendBlobs(m: Interface, blobs: seq<Blob>, config: u16, available: nat, isLast: bool,
                   ghost had: seq<byte>, ghost headers: seq<byte>, ghost room: nat, ghost pad: nat)
      returns (rc: Rc, left: nat, last: bool, ghost pad': nat)
    requires forall k :: 0 <= k < |blobs| ==> Announceable(blobs[k])
    requires Held(m, had, headers, room, available, isLast, pad) && (isLast <==> |headers| > room)
    modifies m, m.buffer
    ensures rc == Success ==>
      var full := headers + BodyBytes(blobs, config);
      Held(m, had, full, room, left, last, pad') && (last <==> |full| > room || LastSelected(blobs, config))
  {
    rc, left, last, pad' := Success, available, isLast, pad;
    ghost var offered := headers;
    for i := 0 to |blobs|
      invariant rc == Success && offered == headers + BodyBytes(blobs[..i], config)
      invariant Held(m, had, offered, room, left, last, pad')
      invariant last <==> |offered| > room || (i == |blobs| && LastSelected(blobs, config))
    {
      BodyBytesStep(headers, blobs, config, i);
      if Selected(blobs[i], config) {
        rc, left, last, pad' := SendBlob(m, blobs[i], left, last, i == |blobs| - 1, had, offered, room, pad');
        if rc != Success {
          return;
        }
        offered := offered + BlobBytes(blobs[i], config);
      }
    }
    assert blobs[..|blobs|] == blobs;
  }

  /** The host buffer receives the package cut to its size. The last granule is completed
      exactly when the package was cut or the last blob of the table was selected; in the
      other case the bytes that do not fill a granule stay in the interface's buffer. */
  method SendOverHostIntf(m: Interface, package: FfdcPackage, f: Failure, blobs: seq<Blob>, config: u16,
                          room: nat, wanted: bool) returns (rc: Rc, ghost pad: nat)
    requires m.Valid() && !m.reading && m.depth < m.granule && package.header.fapiRc == FAPI_RC_SEE_DATA
    requires forall i :: 0 <= i < |blobs| ==> Announceable(blobs[i])
    modifies m, m.buffer, package
    ensures !wanted ==> rc == Success && m.Valid() && m.Accepted() == old(m.Accepted())
    ensures rc == Success && wanted ==>
      var full := WordBytes(Package(f, blobs, config));
      var closed := |full| > room || LastSelected(blobs, config);
      && m.Valid() && pad < m.granule && (if closed then m.depth == 0 else pad == 0)
      && m.Accepted() == old(m.Accepted()) + full[..Least(room, |full|)] + Zeros(pad)
  {
    pad := 0;
    if !wanted {
      return Success, 0;
    }
    package.UpdateUserDataHeader(f, blobs, config);
    ghost var had := m.Accepted();
    var available, last := room, false;
    var header, dataHeader := WordBytes(FfdcWords(package.header)), WordBytes(package.dataHeader);
    ghost var words := FfdcWords(package.header) + package.dataHeader;
    WordBytesConcat(FfdcWords(package.header), package.dataHeader);
    WordBytesConcat(words, Body(blobs, config));
    BodyBytesAre(blobs, config);
    assert [] + header == header;
    rc, available, last, pad := SendPiece(m, header, available, last, false, had, [], room, pad);
    if rc != Success {
      return;
    }
    rc, available, last, pad := SendPiece(m, dataHeader, available, last, false, had, header, room, pad);
    if rc != Success {
      return;
    }
    rc, available, last, pad := SendBlobs(m, blobs, config, available, last, had, header + dataHeader, room, pad);
  }

  /** The first four bytes in host memory say that a package follows, and how long it is, cut
      or not. */
  lemma LengthInBytes(had: seq<byte>, f: Failure, blobs: seq<Blob>, config: u16, room: nat, pad: nat)
    requires room >= 4 && forall i :: 0 <= i < |blobs| ==> Announceable(blobs[i])
    ensures var full := WordBytes(Package(f, blobs, config));
      var all := had + full[..Least(room, |full|)] + Zeros(pad);
      |had| + 4 <= |all| && BeVal(all[|had|..|had| + 4]) == 0xFFDC_0000 + |Package(f, blobs, config)| % 0x1_0000
  {
    var p := Package(f, blobs, config);
    var full := WordBytes(p);
    PackageTells(f, blobs, config);
    WordBytesAt(p, 0);
    assert p[..3][0] == p[0];
    assert full[0..4] == full[..Least(room, |full|)][0..4];
    FirstFour(had, full[..Least(room, |full|)], Zeros(pad));
  }

  lemma FirstFour(a: seq<byte>, b: seq<byte>, c: seq<byte>)
    requires |b| >= 4
    ensures (a + b + c)[|a|..|a| + 4] == b[0..4]
  {
  }
}
