/** Putting a decoded image into a frame buffer (copy_image and scale_image
    in slideshow/src/sshow.c). Frame buffer rows are `stride` bytes apart
    and hold `width` 4-byte pixels; the image is packed. Each drawing method
    is specified by a function of the old buffer contents (CopiedFrame,
    ScaledFrame), and the lemmas below say what those functions put where.

    The float scale of the source is idealised as the exact fraction
    num / den, so every product and quotient below is exact before it is
    truncated. */
module Compositor {
  import opened Memory
  import Image
  import Display

  // ---------------------------------------------------------------------
  // Geometry of scale_image

  /** The uniform scale: the width ratio fbW / imgW when it is strictly the
      smaller one, otherwise the height ratio fbH / imgH; as num / den. */
  function Ratio(fbW: nat, fbH: nat, imgW: nat, imgH: nat): (r: (nat, nat))
    requires imgW > 0 && imgH > 0
    ensures r == (fbW, imgW) || r == (fbH, imgH)
    ensures r.1 > 0 && imgW * r.0 <= fbW * r.1 && imgH * r.0 <= fbH * r.1
    ensures fbW * imgH < fbH * imgW ==> r == (fbW, imgW)
  {
    if fbW * imgH < fbH * imgW then (fbW, imgW) else (fbH, imgH)
  }

  /** The destination box of scale_image in a `fbW` x `fbH` frame: the
      scaled size `dstW` x `dstH` and the top-left corner (`x1`, `y1`). */
  datatype Placement = Placement(fbW: nat, fbH: nat, num: nat, den: nat,
                                 dstW: nat, dstH: nat, x1: nat, y1: nat)
  {
    function X2(): nat { x1 + dstW }
    function Y2(): nat { y1 + dstH }

    /** The box is the scaled `w` x `h` image and lies inside the frame. */
    predicate Fits(w: nat, h: nat) {
      && den > 0 && dstW == w * num / den && dstH == h * num / den
      && X2() <= fbW && Y2() <= fbH
    }
  }

  /** scale_image's geometry: dst_w = imgW * scale, dst_h = imgH * scale,
      both truncated, and the box centred with dst_x1 = fbW / 2 - dst_w / 2,
      dst_y1 = fbH / 2 - dst_h / 2. */
  function Place(fbW: nat, fbH: nat, imgW: nat, imgH: nat): (p: Placement)
    requires imgW > 0 && imgH > 0
    ensures p.fbW == fbW && p.fbH == fbH && p.Fits(imgW, imgH)
  {
    var r := Ratio(fbW, fbH, imgW, imgH);
    var dstW := ScaledFit(fbW, imgW, r.0, r.1);
    var dstH := ScaledFit(fbH, imgH, r.0, r.1);
    Centre(fbW, fbH, r.0, r.1, dstW, dstH)
  }

  /** A `dstW` x `dstH` box centred in the frame. */
  function Centre(fbW: nat, fbH: nat, num: nat, den: nat, dstW: nat, dstH: nat): (p: Placement)
    requires dstW <= fbW && dstH <= fbH
    ensures p.fbW == fbW && p.fbH == fbH && p.num == num && p.den == den && p.dstW == dstW && p.dstH == dstH
    ensures p.X2() <= fbW && p.Y2() <= fbH
  {
    HalvesFit(fbW, dstW);
    HalvesFit(fbH, dstH);
    Placement(fbW, fbH, num, den, dstW, dstH, fbW / 2 - dstW / 2, fbH / 2 - dstH / 2)
  }

  /** The axis whose ratio was chosen is filled edge to edge. */
  lemma PlaceFills(fbW: nat, fbH: nat, imgW: nat, imgH: nat)
    requires imgW > 0 && imgH > 0
    ensures var p := Place(fbW, fbH, imgW, imgH);
      if fbW * imgH < fbH * imgW then p.dstW == fbW && p.x1 == 0 else p.dstH == fbH && p.y1 == 0
  {
    if fbW * imgH < fbH * imgW {
      DivExact(fbW, imgW);
    } else {
      DivExact(fbH, imgH);
    }
  }

  /** The box is centred: the margins left and right of it, and above and
      below it, differ by at most one pixel. */
  lemma PlaceCentred(fbW: nat, fbH: nat, imgW: nat, imgH: nat)
    requires imgW > 0 && imgH > 0
    ensures var p := Place(fbW, fbH, imgW, imgH);
      && p.x1 <= fbW - p.X2() + 1 && fbW - p.X2() <= p.x1 + 1
      && p.y1 <= fbH - p.Y2() + 1 && fbH - p.Y2() <= p.y1 + 1
  {
  }

  /** The source row or column that destination offset `d` samples,
      floor(d / scale), where `d` lies inside a scaled extent of `n`
      pixels: it is one of the `n` source pixels. */
  function SrcIndex(d: nat, n: nat, num: nat, den: nat): (i: nat)
    requires den > 0 && d < n * num / den
    ensures i < n
  {
    SampleInside(d, n, num, den);
    d * den / num
  }

  lemma SampleInside(d: nat, n: nat, num: nat, den: nat)
    requires den > 0 && d < n * num / den
    ensures num > 0 && d * den / num < n
  {
    var q := n * num / den;
    assert q * den <= n * num;
    MulMono(d + 1, q, den);
    assert d * den + den <= n * num;
    DivBelow(d * den, num, n);
  }

  // ---------------------------------------------------------------------
  // Drawing one row of scale_image

  /** The bytes of the first `k` destination pixels of a row of the box:
      pixel `x` is source pixel SrcIndex(x) of the source row `src`. */
  function Span(src: seq<bv8>, w: nat, num: nat, den: nat, k: nat): (r: seq<bv8>)
    requires den > 0 && |src| == 4 * w && k <= w * num / den
    ensures |r| == 4 * k
  {
    if k == 0 then [] else Span(src, w, num, den, k - 1) + Word(src, 0, SrcIndex(k - 1, w, num, den))
  }

  /** Pixel `x` of the span is the sampled source pixel. */
  lemma {:induction false} SpanPixels(src: seq<bv8>, w: nat, num: nat, den: nat, k: nat)
    requires den > 0 && |src| == 4 * w && k <= w * num / den
    ensures forall x :: 0 <= x < k ==> Word(Span(src, w, num, den, k), 0, x) == Word(src, 0, SrcIndex(x, w, num, den))
  {
    if k > 0 {
      var prev := Span(src, w, num, den, k - 1);
      var r := Span(src, w, num, den, k);
      SpanPixels(src, w, num, den, k - 1);
      forall x | 0 <= x < k
        ensures Word(r, 0, x) == Word(src, 0, SrcIndex(x, w, num, den))
      {
        if x < k - 1 {
          assert Word(r, 0, x) == Word(prev, 0, x) by {
            assert r[..4 * (k - 1)] == prev;
            SubSlice(r, prev, 0, 4 * (k - 1), 4 * x, 4 * x + 4);
          }
        } else {
          assert r[4 * x..] == Word(src, 0, SrcIndex(x, w, num, den));
        }
      }
    }
  }

  /** Where the right-margin memset leaves off, counted in bytes from the
      start of the row: it starts at byte `rightAt` and clears
      4 * (fbW - dst_x2) bytes; the pixels of the box overwrite whatever
      of it lies left of byte 4 * dst_x2. */
  function RightEnd(p: Placement, rightAt: nat): nat {
    if rightAt + 4 * (p.fbW - p.X2()) < 4 * p.X2() then 4 * p.X2() else rightAt + 4 * (p.fbW - p.X2())
  }

  /** One row of the box drawn over the frame row `row` (its padding
      included): the left margin cleared, the right-margin memset from
      byte `rightAt` of the row, then the sampled pixels of the source row
      `src`. */
  function Line(row: seq<bv8>, p: Placement, rightAt: nat, src: seq<bv8>, w: nat): (r: seq<bv8>)
    requires p.den > 0 && p.dstW == w * p.num / p.den && p.X2() <= p.fbW && |src| == 4 * w
    requires 4 * p.fbW <= |row| && rightAt + 4 * (p.fbW - p.X2()) <= 4 * p.fbW
    ensures |r| == |row|
  {
    var cleared := Splice(Splice(row, 0, Zeros(4 * p.x1)), rightAt, Zeros(4 * (p.fbW - p.X2())));
    Splice(cleared, 4 * p.x1, Span(src, w, p.num, p.den, p.dstW))
  }

  /** A row of the box as scale_image leaves it, given the row before
      (`before`, of the same length, at least 4 * fbW bytes): the left
      margin is zero, pixel `x` of the box is the sampled source pixel, the
      right margin is zero up to RightEnd, and every byte from there on
      (the rest of the right margin and the row padding) is as it was. */
  ghost predicate RowShown(row: seq<bv8>, before: seq<bv8>, p: Placement, rightAt: nat, src: seq<bv8>, w: nat)
    requires p.den > 0 && p.dstW == w * p.num / p.den && p.X2() <= p.fbW && |src| == 4 * w
    requires rightAt + 4 * (p.fbW - p.X2()) <= 4 * p.fbW
  {
    && |row| == |before| && 4 * p.fbW <= |row|
    && AllZero(row[..4 * p.x1])
    && (forall x :: p.x1 <= x < p.X2() ==> Word(row, 0, x) == Word(src, 0, SrcIndex(x - p.x1, w, p.num, p.den)))
    && AllZero(row[4 * p.X2()..RightEnd(p, rightAt)])
    && row[RightEnd(p, rightAt)..] == before[RightEnd(p, rightAt)..]
  }

  /** Byte `k` of a drawn row. */
  lemma LineAt(row: seq<bv8>, p: Placement, rightAt: nat, src: seq<bv8>, w: nat, k: nat)
    requires p.den > 0 && p.dstW == w * p.num / p.den && p.X2() <= p.fbW && |src| == 4 * w
    requires 4 * p.fbW <= |row| && rightAt + 4 * (p.fbW - p.X2()) <= 4 * p.fbW
    requires rightAt <= 4 * p.X2() && k < |row|
    ensures var r := Line(row, p, rightAt, src, w);
      && (k < 4 * p.x1 ==> r[k] == 0)
      && (4 * p.x1 <= k < 4 * p.X2() ==> r[k] == Span(src, w, p.num, p.den, p.dstW)[k - 4 * p.x1])
      && (4 * p.X2() <= k < RightEnd(p, rightAt) ==> r[k] == 0)
      && (RightEnd(p, rightAt) <= k ==> r[k] == row[k])
  {
    var z1, z2 := Zeros(4 * p.x1), Zeros(4 * (p.fbW - p.X2()));
    var a := Splice(row, 0, z1);
    var b := Splice(a, rightAt, z2);
    SpliceAt(row, 0, z1, k);
    SpliceAt(a, rightAt, z2, k);
    SpliceAt(b, 4 * p.x1, Span(src, w, p.num, p.den, p.dstW), k);
  }

  /** The drawn row shows the box over the row it was drawn on. */
  lemma LineShown(row: seq<bv8>, p: Placement, rightAt: nat, src: seq<bv8>, w: nat)
    requires p.den > 0 && p.dstW == w * p.num / p.den && p.X2() <= p.fbW && |src| == 4 * w
    requires 4 * p.fbW <= |row| && rightAt + 4 * (p.fbW - p.X2()) <= 4 * p.fbW
    requires rightAt <= 4 * p.X2()
    ensures RowShown(Line(row, p, rightAt, src, w), row, p, rightAt, src, w)
  {
    var r := Line(row, p, rightAt, src, w);
    var span := Span(src, w, p.num, p.den, p.dstW);
    var re := RightEnd(p, rightAt);
    forall j | 0 <= j < |row|
      ensures (j < 4 * p.x1 || 4 * p.X2() <= j < re) ==> r[j] == 0
      ensures 4 * p.x1 <= j < 4 * p.X2() ==> r[j] == span[j - 4 * p.x1]
      ensures re <= j ==> r[j] == row[j]
    {
      LineAt(row, p, rightAt, src, w, j);
    }
    assert AllZero(r[..4 * p.x1]);
    assert AllZero(r[4 * p.X2()..re]);
    assert r[re..] == row[re..];
    SpanPixels(src, w, p.num, p.den, p.dstW);
    forall x | p.x1 <= x < p.X2()
      ensures Word(r, 0, x) == Word(src, 0, SrcIndex(x - p.x1, w, p.num, p.den))
    {
      assert Word(r, 0, x) == Word(span, 0, x - p.x1);
    }
  }

  // Whole frames

  /** A frame of `p.fbH` rows `stride` bytes apart, each with room for
      `p.fbW` pixels, and a packed `w` x `h` source whose box fits the
      frame. */
  predicate Layout(s: seq<bv8>, stride: nat, p: Placement, img: seq<bv8>, w: nat, h: nat) {
    p.Fits(w, h) && 4 * p.fbW <= stride && p.fbH * stride <= |s| && |img| == h * (4 * w)
  }

  /** Row `y` of a packed `w` x `h` image. */
  function SrcRow(img: seq<bv8>, w: nat, h: nat, y: nat): (r: seq<bv8>)
    requires y < h && |img| == h * (4 * w)
    ensures |r| == 4 * w
  {
    Row(img, 4 * w, h, y, 4 * w)
  }

  /** The first `n` rows of the box drawn, row dst_y1 + i sampling source
      row SrcIndex(i). */
  function RowsDrawn(s: seq<bv8>, stride: nat, p: Placement, rightAt: nat, img: seq<bv8>, w: nat, h: nat, n: nat): (t: seq<bv8>)
    requires Layout(s, stride, p, img, w, h) && rightAt <= 4 * p.X2() && n <= p.dstH
    ensures |t| == |s|
  {
    if n == 0 then s
    else DrawStep(RowsDrawn(s, stride, p, rightAt, img, w, h, n - 1), stride, p, rightAt, img, w, h, n - 1)
  }

  /** Row `k` of the box, frame row dst_y1 + k, drawn over `prev`. */
  function DrawStep(prev: seq<bv8>, stride: nat, p: Placement, rightAt: nat, img: seq<bv8>, w: nat, h: nat, k: nat): (t: seq<bv8>)
    requires Layout(prev, stride, p, img, w, h) && rightAt <= 4 * p.X2() && k < p.dstH
    ensures |t| == |prev|
  {
    var y := p.y1 + k;
    RowInside(y, p.fbH, stride);
    MulMono(0, y, stride);
    Splice(prev, y * stride, Line(Row(prev, stride, p.fbH, y, stride), p, rightAt, SrcRow(img, w, h, SrcIndex(k, h, p.num, p.den)), w))
  }

  /** Rows `lo .. hi` of `t` show the box over the rows of `s`. */
  ghost predicate RowsShown(t: seq<bv8>, s: seq<bv8>, stride: nat, p: Placement, rightAt: nat, img: seq<bv8>, w: nat, h: nat, lo: nat, hi: nat)
    requires Layout(s, stride, p, img, w, h) && |t| == |s| && rightAt <= 4 * p.X2() && p.y1 <= lo <= hi <= p.Y2()
  {
    forall y :: lo <= y < hi ==>
      RowShown(Row(t, stride, p.fbH, y, stride), Row(s, stride, p.fbH, y, stride), p, rightAt,
               SrcRow(img, w, h, SrcIndex(y - p.y1, h, p.num, p.den)), w)
  }

  /** Every row of the `rows`-row frame outside `lo .. hi`, and everything
      after the last row, is the same in `t` and `s`. */
  ghost predicate RowsKept(t: seq<bv8>, s: seq<bv8>, stride: nat, rows: nat, lo: nat, hi: nat)
    requires rows * stride <= |s| == |t|
  {
    && (forall y :: 0 <= y < rows && !(lo <= y < hi) ==> Row(t, stride, rows, y, stride) == Row(s, stride, rows, y, stride))
    && t[rows * stride..] == s[rows * stride..]
  }

  /** Row `y` after drawing the first `n` rows of the box: drawn (Line)
      over the row of `s` when it is one of them, the row of `s`
      otherwise. */
  lemma {:induction false} DrawnRowAt(s: seq<bv8>, stride: nat, p: Placement, rightAt: nat, img: seq<bv8>, w: nat, h: nat, n: nat, y: nat)
    requires Layout(s, stride, p, img, w, h) && rightAt <= 4 * p.X2() && n <= p.dstH && y < p.fbH
    ensures DrawnRow(RowsDrawn(s, stride, p, rightAt, img, w, h, n), s, stride, p, rightAt, img, w, h, n, y)
  {
    if n > 0 {
      DrawnRowAt(s, stride, p, rightAt, img, w, h, n - 1, y);
      DrawnUnfold(s, stride, p, rightAt, img, w, h, n, y);
      DrawnRowStep(RowsDrawn(s, stride, p, rightAt, img, w, h, n), RowsDrawn(s, stride, p, rightAt, img, w, h, n - 1),
                   s, stride, p, rightAt, img, w, h, n, y);
    }
  }

  /** Row `y` after the n-th row of the box is drawn, in terms of the frame
      before. */
  lemma DrawnUnfold(s: seq<bv8>, stride: nat, p: Placement, rightAt: nat, img: seq<bv8>, w: nat, h: nat, n: nat, y: nat)
    requires Layout(s, stride, p, img, w, h) && rightAt <= 4 * p.X2() && 0 < n <= p.dstH && y < p.fbH
    ensures var prev, t := RowsDrawn(s, stride, p, rightAt, img, w, h, n - 1), RowsDrawn(s, stride, p, rightAt, img, w, h, n);
      && (y == p.y1 + n - 1 ==>
            Row(t, stride, p.fbH, y, stride) == Line(Row(prev, stride, p.fbH, p.y1 + n - 1, stride), p, rightAt, SrcRow(img, w, h, SrcIndex(n - 1, h, p.num, p.den)), w))
      && (y != p.y1 + n - 1 ==> Row(t, stride, p.fbH, y, stride) == Row(prev, stride, p.fbH, y, stride))
  {
    var prev := RowsDrawn(s, stride, p, rightAt, img, w, h, n - 1);
    var cur := p.y1 + n - 1;
    var line := Line(Row(prev, stride, p.fbH, cur, stride), p, rightAt, SrcRow(img, w, h, SrcIndex(n - 1, h, p.num, p.den)), w);
    RowSpliced(prev, stride, p.fbH, cur, line, y);
  }

  /** Row `y` of `t` after `n` rows of the box are drawn over `s`. */
  ghost predicate DrawnRow(t: seq<bv8>, s: seq<bv8>, stride: nat, p: Placement, rightAt: nat, img: seq<bv8>, w: nat, h: nat, n: nat, y: nat)
    requires Layout(s, stride, p, img, w, h) && rightAt <= 4 * p.X2() && n <= p.dstH && y < p.fbH && |t| == |s|
  {
    && (p.y1 <= y < p.y1 + n ==>
          Row(t, stride, p.fbH, y, stride)
          == Line(Row(s, stride, p.fbH, y, stride), p, rightAt, SrcRow(img, w, h, SrcIndex(y - p.y1, h, p.num, p.den)), w))
    && (!(p.y1 <= y < p.y1 + n) ==> Row(t, stride, p.fbH, y, stride) == Row(s, stride, p.fbH, y, stride))
  }

  /** The step of DrawnRowAt: row dst_y1 + n - 1 of `prev` replaced by its
      drawn line. */
  lemma DrawnRowStep(t: seq<bv8>, prev: seq<bv8>, s: seq<bv8>, stride: nat, p: Placement, rightAt: nat,
                     img: seq<bv8>, w: nat, h: nat, n: nat, y: nat)
    requires Layout(s, stride, p, img, w, h) && rightAt <= 4 * p.X2() && 0 < n <= p.dstH && y < p.fbH
    requires |t| == |prev| == |s|
    requires DrawnRow(prev, s, stride, p, rightAt, img, w, h, n - 1, y)
    requires y == p.y1 + n - 1 ==>
      Row(t, stride, p.fbH, y, stride) == Line(Row(prev, stride, p.fbH, p.y1 + n - 1, stride), p, rightAt, SrcRow(img, w, h, SrcIndex(n - 1, h, p.num, p.den)), w)
    requires y != p.y1 + n - 1 ==> Row(t, stride, p.fbH, y, stride) == Row(prev, stride, p.fbH, y, stride)
    ensures DrawnRow(t, s, stride, p, rightAt, img, w, h, n, y)
  {
    if y == p.y1 + n - 1 {
      assert y - p.y1 == n - 1;
    }
  }

  /** Drawing rows of the box leaves the bytes after the last row (from
      byte `k`) alone. */
  lemma {:induction false} DrawnTail(s: seq<bv8>, stride: nat, p: Placement, rightAt: nat, img: seq<bv8>, w: nat, h: nat, n: nat, k: nat)
    requires Layout(s, stride, p, img, w, h) && rightAt <= 4 * p.X2() && n <= p.dstH && k == p.fbH * stride
    ensures RowsDrawn(s, stride, p, rightAt, img, w, h, n)[k..] == s[k..]
  {
    if n > 0 {
      DrawnTail(s, stride, p, rightAt, img, w, h, n - 1, k);
      DrawnTailStep(s, stride, p, rightAt, img, w, h, n, k);
    }
  }

  /** The n-th row of the box leaves the bytes from `k` on alone. */
  lemma DrawnTailStep(s: seq<bv8>, stride: nat, p: Placement, rightAt: nat, img: seq<bv8>, w: nat, h: nat, n: nat, k: nat)
    requires Layout(s, stride, p, img, w, h) && rightAt <= 4 * p.X2() && 0 < n <= p.dstH && k == p.fbH * stride
    ensures RowsDrawn(s, stride, p, rightAt, img, w, h, n)[k..] == RowsDrawn(s, stride, p, rightAt, img, w, h, n - 1)[k..]
  {
    var prev := RowsDrawn(s, stride, p, rightAt, img, w, h, n - 1);
    var y := p.y1 + (n - 1);
    RowInside(y, p.fbH, stride);
    var row := Row(prev, stride, p.fbH, y, stride);
    var src := SrcRow(img, w, h, SrcIndex(n - 1, h, p.num, p.den));
    StepSplices(prev, stride, p, rightAt, img, w, h, n - 1, y * stride, row, src);
    RowSpliced(prev, stride, p.fbH, y, Line(row, p, rightAt, src, w), y);
  }

  /** scale_image's background memsets: the rows above and below the box,
      padding included. */
  function Margins(s: seq<bv8>, stride: nat, p: Placement): (t: seq<bv8>)
    requires p.Y2() <= p.fbH && p.fbH * stride <= |s|
    ensures |t| == |s|
  {
    MulMono(p.y1, p.fbH, stride);
    assert (p.fbH - p.Y2()) * stride + p.Y2() * stride == p.fbH * stride;
    Splice(Splice(s, 0, Zeros(p.y1 * stride)), p.Y2() * stride, Zeros((p.fbH - p.Y2()) * stride))
  }

  /** The rows the margins clear are zero; the others are as they were. */
  lemma MarginsRows(s: seq<bv8>, stride: nat, p: Placement, y: nat)
    requires p.Y2() <= p.fbH && p.fbH * stride <= |s| && y < p.fbH
    ensures var m := Margins(s, stride, p);
      && (y < p.y1 || p.Y2() <= y ==> AllZero(Row(m, stride, p.fbH, y, stride)))
      && (p.y1 <= y < p.Y2() ==> Row(m, stride, p.fbH, y, stride) == Row(s, stride, p.fbH, y, stride))
  {
    if y < p.y1 {
      MarginsAbove(s, stride, p, y);
    } else if p.Y2() <= y {
      MarginsBelow(s, stride, p, y);
    } else {
      MarginsInside(s, stride, p, y);
    }
  }

  /** A row above the box is cleared by the first memset. */
  lemma MarginsAbove(s: seq<bv8>, stride: nat, p: Placement, y: nat)
    requires p.Y2() <= p.fbH && p.fbH * stride <= |s| && y < p.y1
    ensures AllZero(Row(Margins(s, stride, p), stride, p.fbH, y, stride))
  {
    MulMono(p.y1, p.fbH, stride);
    MulMono(p.y1, p.Y2(), stride);
    assert (p.fbH - p.Y2()) * stride + p.Y2() * stride == p.fbH * stride;
    var z1, z2 := Zeros(p.y1 * stride), Zeros((p.fbH - p.Y2()) * stride);
    var m1 := Splice(s, 0, z1);
    RowInside(y, p.fbH, stride);
    RowBefore(y, p.y1, stride);
    var lo, hi := y * stride, y * stride + stride;
    SpliceOutside(m1, p.Y2() * stride, z2, lo, hi);
    SpliceInside(s, 0, z1, lo, hi);
  }

  /** A row below the box is cleared by the second memset. */
  lemma MarginsBelow(s: seq<bv8>, stride: nat, p: Placement, y: nat)
    requires p.Y2() <= p.fbH && p.fbH * stride <= |s| && p.Y2() <= y < p.fbH
    ensures AllZero(Row(Margins(s, stride, p), stride, p.fbH, y, stride))
  {
    MulMono(p.y1, p.fbH, stride);
    MulMono(p.Y2(), y, stride);
    assert (p.fbH - p.Y2()) * stride + p.Y2() * stride == p.fbH * stride;
    var z1, z2 := Zeros(p.y1 * stride), Zeros((p.fbH - p.Y2()) * stride);
    var m1 := Splice(s, 0, z1);
    RowInside(y, p.fbH, stride);
    SpliceInside(m1, p.Y2() * stride, z2, y * stride, y * stride + stride);
  }

  /** A row of the box is left alone by both memsets. */
  lemma MarginsInside(s: seq<bv8>, stride: nat, p: Placement, y: nat)
    requires p.Y2() <= p.fbH && p.fbH * stride <= |s| && p.y1 <= y < p.Y2()
    ensures Row(Margins(s, stride, p), stride, p.fbH, y, stride) == Row(s, stride, p.fbH, y, stride)
  {
    MulMono(p.y1, p.fbH, stride);
    MulMono(p.y1, y, stride);
    assert (p.fbH - p.Y2()) * stride + p.Y2() * stride == p.fbH * stride;
    var z1, z2 := Zeros(p.y1 * stride), Zeros((p.fbH - p.Y2()) * stride);
    var m1 := Splice(s, 0, z1);
    RowInside(y, p.fbH, stride);
    RowBefore(y, p.Y2(), stride);
    var lo, hi := y * stride, y * stride + stride;
    SpliceOutside(m1, p.Y2() * stride, z2, lo, hi);
    SpliceOutside(s, 0, z1, lo, hi);
  }

  /** The margins end with the last row. */
  lemma MarginsTail(s: seq<bv8>, stride: nat, p: Placement)
    requires p.Y2() <= p.fbH && p.fbH * stride <= |s|
    ensures var m := Margins(s, stride, p);
      m[p.fbH * stride..] == s[p.fbH * stride..]
  {
    MulMono(p.y1, p.fbH, stride);
    assert (p.fbH - p.Y2()) * stride + p.Y2() * stride == p.fbH * stride;
    var z1, z2 := Zeros(p.y1 * stride), Zeros((p.fbH - p.Y2()) * stride);
    var m1 := Splice(s, 0, z1);
    SpliceOutside(m1, p.Y2() * stride, z2, p.fbH * stride, |s|);
    SpliceOutside(s, 0, z1, p.fbH * stride, |s|);
  }

  /** The frame scale_image leaves, given the frame before and the byte of
      the row at which its right-margin memset starts. */
  function ScaledFrame(before: seq<bv8>, stride: nat, p: Placement, rightAt: nat, img: seq<bv8>, w: nat, h: nat): (t: seq<bv8>)
    requires Layout(before, stride, p, img, w, h) && rightAt <= 4 * p.X2()
    ensures |t| == |before|
  {
    RowsDrawn(Margins(before, stride, p), stride, p, rightAt, img, w, h, p.dstH)
  }

  /** `after` is what scale_image leaves over `before`: the box lies inside
      the frame and the frame is ScaledFrame. */
  ghost predicate ScaledOver(after: seq<bv8>, before: seq<bv8>, stride: nat, p: Placement, rightAt: nat, img: seq<bv8>, w: nat, h: nat) {
    && Layout(before, stride, p, img, w, h) && rightAt <= 4 * p.X2()
    && after == ScaledFrame(before, stride, p, rightAt, img, w, h)
  }

  /** Every row of the `rows`-row frame outside `lo .. hi` is zero,
      padding included. */
  ghost predicate RowsCleared(t: seq<bv8>, stride: nat, rows: nat, lo: nat, hi: nat) {
    && rows * stride <= |t|
    && forall y :: 0 <= y < rows && !(lo <= y < hi) ==> AllZero(Row(t, stride, rows, y, stride))
  }

  /** `t` and `s` agree from byte `k` on. */
  ghost predicate TailKept(t: seq<bv8>, s: seq<bv8>, k: nat) {
    k <= |t| && k <= |s| && t[k..] == s[k..]
  }

  /** What scale_image leaves in the frame: every row above and below the
      box is zero, padding included; every row of the box shows it over
      the old row (RowShown); the bytes after the last row are untouched. */
  lemma ScaledShape(before: seq<bv8>, stride: nat, p: Placement, rightAt: nat, img: seq<bv8>, w: nat, h: nat)
    requires Layout(before, stride, p, img, w, h) && rightAt <= 4 * p.X2()
    ensures var t := ScaledFrame(before, stride, p, rightAt, img, w, h);
      && RowsCleared(t, stride, p.fbH, p.y1, p.Y2())
      && RowsShown(t, before, stride, p, rightAt, img, w, h, p.y1, p.Y2())
      && TailKept(t, before, p.fbH * stride)
  {
    var m := Margins(before, stride, p);
    var t := ScaledFrame(before, stride, p, rightAt, img, w, h);
    forall y | 0 <= y < p.fbH
      ensures !(p.y1 <= y < p.Y2()) ==> AllZero(Row(t, stride, p.fbH, y, stride))
      ensures p.y1 <= y < p.Y2() ==>
        RowShown(Row(t, stride, p.fbH, y, stride), Row(before, stride, p.fbH, y, stride), p, rightAt,
                 SrcRow(img, w, h, SrcIndex(y - p.y1, h, p.num, p.den)), w)
    {
      MarginsRows(before, stride, p, y);
      DrawnRowAt(m, stride, p, rightAt, img, w, h, p.dstH, y);
      if p.y1 <= y < p.Y2() {
        LineShown(Row(m, stride, p.fbH, y, stride), p, rightAt, SrcRow(img, w, h, SrcIndex(y - p.y1, h, p.num, p.den)), w);
      }
    }
    MulMono(0, p.fbH, stride);
    DrawnTail(m, stride, p, rightAt, img, w, h, p.dstH, p.fbH * stride);
    MarginsTail(before, stride, p);
  }

  /** With the byte offset 4 * dst_x2 the whole right margin of every row
      of the box is zero. */
  lemma RightMarginCleared(before: seq<bv8>, stride: nat, p: Placement, img: seq<bv8>, w: nat, h: nat, y: nat)
    requires Layout(before, stride, p, img, w, h) && p.y1 <= y < p.Y2()
    ensures var row := Row(ScaledFrame(before, stride, p, 4 * p.X2(), img, w, h), stride, p.fbH, y, stride);
      AllZero(row[4 * p.X2()..4 * p.fbW])
  {
    ScaledShape(before, stride, p, 4 * p.X2(), img, w, h);
  }

  /** With the offset as written (dst_x2 bytes) the right-margin memset
      ends at byte dst_x2 + 4 * (fbW - dst_x2) of the row. Whenever that is
      not past the end of the box (4 * fbW <= 7 * dst_x2), the whole right
      margin of every row of the box keeps what the frame held before. */
  lemma RightMarginMissed(before: seq<bv8>, stride: nat, p: Placement, img: seq<bv8>, w: nat, h: nat, y: nat)
    requires Layout(before, stride, p, img, w, h) && p.y1 <= y < p.Y2() && 4 * p.fbW <= 7 * p.X2()
    ensures var row := Row(ScaledFrame(before, stride, p, p.X2(), img, w, h), stride, p.fbH, y, stride);
      row[4 * p.X2()..4 * p.fbW] == Row(before, stride, p.fbH, y, stride)[4 * p.X2()..4 * p.fbW]
  {
    ScaledShape(before, stride, p, p.X2(), img, w, h);
    assert RightEnd(p, p.X2()) == 4 * p.X2();
    var row := Row(ScaledFrame(before, stride, p, p.X2(), img, w, h), stride, p.fbH, y, stride);
    var prior := Row(before, stride, p.fbH, y, stride);
    assert row[4 * p.X2()..] == prior[4 * p.X2()..];
    SubSlice(row, prior, 4 * p.X2(), |row|, 4 * p.X2(), 4 * p.fbW);
  }

  /** A 4 x 2 frame showing a 1 x 1 image: the box is pixels 1 and 2 of
      each row, pixel 3 is right margin, and RightMarginMissed applies. */
  lemma PlaceExample()
    ensures var p := Placement(4, 2, 2, 1, 2, 2, 1, 0);
      && Place(4, 2, 1, 1) == p
      && p.X2() < p.fbW && 4 * p.fbW <= 7 * p.X2()
  {
    var p := Placement(4, 2, 2, 1, 2, 2, 1, 0);
    assert Place(4, 2, 1, 1) == p by {
      PlaceValue();
      CentreValue();
    }
    BoxValue();
  }

  /** The example's box ends at pixel 3, one short of the frame's edge. */
  lemma BoxValue()
    ensures var p := Placement(4, 2, 2, 1, 2, 2, 1, 0);
      p.X2() == 3 && p.X2() < p.fbW && 4 * p.fbW <= 7 * p.X2()
  {
  }

  /** The example's scale is 2 / 1, which makes the box 2 x 2. */
  lemma PlaceValue()
    ensures Place(4, 2, 1, 1) == Centre(4, 2, 2, 1, 2, 2)
  {
    RatioValue();
    ScaledValue();
    assert ScaledFit(2, 1, 2, 1) == 2;
  }

  lemma RatioValue()
    ensures Ratio(4, 2, 1, 1) == (2, 1)
  {
  }

  lemma ScaledValue()
    ensures ScaledFit(4, 1, 2, 1) == 2
  {
  }

  /** The 2 x 2 box centred in the 4 x 2 frame starts at pixel 1. */
  lemma CentreValue()
    ensures Centre(4, 2, 2, 1, 2, 2) == Placement(4, 2, 2, 1, 2, 2, 1, 0)
  {
  }

  // ---------------------------------------------------------------------
  // copy_image

  /** The first `n` image rows copied into the frame, row `y` to byte
      y * stride. */
  function CopiedFrame(s: seq<bv8>, img: seq<bv8>, w: nat, stride: nat, h: nat, n: nat): (t: seq<bv8>)
    requires n <= h && h * stride <= |s| && 4 * w <= stride && |img| == h * (4 * w)
    ensures |t| == |s|
  {
    if n == 0 then s
    else
      RowInside(n - 1, h, stride);
      Splice(CopiedFrame(s, img, w, stride, h, n - 1), (n - 1) * stride, SrcRow(img, w, h, n - 1))
  }

  /** Rows `0 .. n` of `t` hold the image rows in their first 4 * w bytes
      and the padding of `s` after them. */
  ghost predicate RowsCopied(t: seq<bv8>, s: seq<bv8>, img: seq<bv8>, w: nat, stride: nat, h: nat, n: nat)
    requires n <= h && h * stride <= |s| == |t| && 4 * w <= stride && |img| == h * (4 * w)
  {
    forall y :: 0 <= y < n ==>
      && Row(t, stride, h, y, 4 * w) == SrcRow(img, w, h, y)
      && Row(t, stride, h, y, stride)[4 * w..] == Row(s, stride, h, y, stride)[4 * w..]
  }

  /** Copying `n` rows: each of them holds the image row in its first
      4 * w bytes and keeps its padding; the other rows and the bytes after
      the last row are untouched. */
  lemma {:induction false} CopiedShape(s: seq<bv8>, img: seq<bv8>, w: nat, stride: nat, h: nat, n: nat)
    requires n <= h && h * stride <= |s| && 4 * w <= stride && |img| == h * (4 * w)
    ensures var t := CopiedFrame(s, img, w, stride, h, n);
      RowsCopied(t, s, img, w, stride, h, n) && RowsKept(t, s, stride, h, 0, n)
  {
    if n > 0 {
      CopiedShape(s, img, w, stride, h, n - 1);
      CopiedLast(s, img, w, stride, h, n);
    }
  }

  /** The n-th row copied keeps the shape of the first n - 1. */
  lemma CopiedLast(s: seq<bv8>, img: seq<bv8>, w: nat, stride: nat, h: nat, n: nat)
    requires 0 < n <= h && h * stride <= |s| && 4 * w <= stride && |img| == h * (4 * w)
    requires var prev := CopiedFrame(s, img, w, stride, h, n - 1);
      RowsCopied(prev, s, img, w, stride, h, n - 1) && RowsKept(prev, s, stride, h, 0, n - 1)
    ensures var t := CopiedFrame(s, img, w, stride, h, n);
      RowsCopied(t, s, img, w, stride, h, n) && RowsKept(t, s, stride, h, 0, n)
  {
    {
      var prev := CopiedFrame(s, img, w, stride, h, n - 1);
      var at := (n - 1) * stride;
      RowInside(n - 1, h, stride);
      MulMono(0, n - 1, stride);
      var row := SrcRow(img, w, h, n - 1);
      var t := Splice(prev, at, row);
      assert t == CopiedFrame(s, img, w, stride, h, n);
      SpliceOutside(prev, at, row, 0, at);
      SpliceOutside(prev, at, row, at + 4 * w, |prev|);
      SpliceInside(prev, at, row, at, at + 4 * w);
      CopyStep(t, prev, s, img, w, stride, h, n, at);
    }
  }

  /** One more row copied over `prev`, which has the first `n - 1`. */
  lemma CopyStep(t: seq<bv8>, prev: seq<bv8>, s: seq<bv8>, img: seq<bv8>, w: nat, stride: nat, h: nat, n: nat, at: nat)
    requires 0 < n <= h && h * stride <= |s| == |prev| == |t| && 4 * w <= stride && |img| == h * (4 * w)
    requires at == (n - 1) * stride && at + stride <= h * stride
    requires RowsCopied(prev, s, img, w, stride, h, n - 1) && RowsKept(prev, s, stride, h, 0, n - 1)
    requires t[..at] == prev[..at] && t[at + 4 * w..] == prev[at + 4 * w..]
    requires t[at..at + 4 * w] == SrcRow(img, w, h, n - 1)
    ensures RowsCopied(t, s, img, w, stride, h, n) && RowsKept(t, s, stride, h, 0, n)
  {
    RowsApart(t, prev, stride, h, n - 1, 4 * w);
    forall y | 0 <= y < n
      ensures Row(t, stride, h, y, 4 * w) == SrcRow(img, w, h, y)
      ensures Row(t, stride, h, y, stride)[4 * w..] == Row(s, stride, h, y, stride)[4 * w..]
    {
      RowPrefix(t, stride, h, y, 4 * w);
      RowPrefix(prev, stride, h, y, 4 * w);
      if y == n - 1 {
        assert Row(t, stride, h, y, stride)[4 * w..] == t[at + 4 * w..at + stride];
        assert Row(prev, stride, h, y, stride) == Row(s, stride, h, y, stride);
        SubSlice(t, prev, at + 4 * w, |prev|, at + 4 * w, at + stride);
      }
    }
  }

  /** When the frame rows are exactly as wide as the image rows, copying
      row by row is one copy of the whole image. */
  lemma {:induction false} CopyFastPath(s: seq<bv8>, img: seq<bv8>, w: nat, h: nat, n: nat)
    requires n <= h && h * (4 * w) <= |s| && |img| == h * (4 * w)
    ensures n * (4 * w) <= |img|
    ensures CopiedFrame(s, img, w, 4 * w, h, n) == Splice(s, 0, img[..n * (4 * w)])
  {
    MulMono(n, h, 4 * w);
    if n > 0 {
      CopyFastPath(s, img, w, h, n - 1);
      assert (n - 1) * (4 * w) + 4 * w == n * (4 * w);
      CopyFastStep(s, img, w, h, n, (n - 1) * (4 * w), n * (4 * w));
    }
  }

  /** The step of CopyFastPath: row n - 1 is the next 4 * w bytes of both. */
  lemma CopyFastStep(s: seq<bv8>, img: seq<bv8>, w: nat, h: nat, n: nat, at: nat, end: nat)
    requires 0 < n <= h && h * (4 * w) <= |s| && |img| == h * (4 * w)
    requires at == (n - 1) * (4 * w) && end == at + 4 * w && end <= |img|
    requires CopiedFrame(s, img, w, 4 * w, h, n - 1) == Splice(s, 0, img[..at])
    ensures CopiedFrame(s, img, w, 4 * w, h, n) == Splice(s, 0, img[..end])
  {
    SpliceAppend(s, 0, img[..at], SrcRow(img, w, h, n - 1));
    assert img[..at] + img[at..end] == img[..end];
  }

  // ---------------------------------------------------------------------
  // The drawing methods

  /** copy_image, called when the image has the frame's size: in one
      memcpy when image rows are exactly as wide as frame rows, otherwise
      row by row. */
  method CopyImage(img: Image.Image, fb: Display.FrameBuffer)
    requires img.Valid() && fb.Drawable() && img.data != fb.data
    requires img.width == fb.width && img.height == fb.height
    modifies fb.data
    ensures fb.data[..] == CopiedFrame(old(fb.data[..]), img.data[..], img.width, fb.stride, img.height, img.height)
  {
    var data: array<bv8> := fb.data;
    var w, h, stride := img.width, img.height, 4 * img.width;
    ghost var before := data[..];
    MulMono(stride, fb.stride, h);
    if stride == fb.stride {
      Copy(data, 0, img.data, 0, h * stride);
      CopyFastPath(before, img.data[..], w, h, h);
      assert img.data[..][..h * stride] == img.data[0..h * stride];
    } else {
      CopyRows(data, fb.stride, img.data, w, h);
    }
  }

  /** The row-by-row branch of copy_image: one memcpy of 4 * w bytes per
      image row, to byte y * stride of the frame. */
  method CopyRows(data: array<bv8>, stride: nat, pic: array<bv8>, w: nat, h: nat)
    requires data != pic && pic.Length == h * (4 * w) && 4 * w <= stride && h * stride <= data.Length
    modifies data
    ensures data[..] == CopiedFrame(old(data[..]), pic[..], w, stride, h, h)
  {
    ghost var before := data[..];
    var y := 0;
    while y < h
      invariant 0 <= y <= h
      invariant data[..] == CopiedFrame(before, pic[..], w, stride, h, y)
    {
      CopyRow(data, stride, pic, w, h, before, y);
      y := y + 1;
    }
  }

  /** One memcpy of the row-by-row branch: image row `y` to frame row `y`. */
  method CopyRow(data: array<bv8>, stride: nat, pic: array<bv8>, w: nat, h: nat, ghost before: seq<bv8>, y: nat)
    requires data != pic && pic.Length == h * (4 * w) && 4 * w <= stride && h * stride <= |before| && y < h
    requires data[..] == CopiedFrame(before, pic[..], w, stride, h, y)
    modifies data
    ensures data[..] == CopiedFrame(before, pic[..], w, stride, h, y + 1)
  {
    RowInside(y, h, stride);
    RowInside(y, h, 4 * w);
    Copy(data, y * stride, pic, y * (4 * w), 4 * w);
    CopiedNext(before, pic[..], w, stride, h, y);
  }

  /** Copying row `y` next splices image row `y` in at byte y * stride. */
  lemma CopiedNext(s: seq<bv8>, img: seq<bv8>, w: nat, stride: nat, h: nat, y: nat)
    requires y < h && h * stride <= |s| && 4 * w <= stride && |img| == h * (4 * w)
    ensures y * (4 * w) + 4 * w <= |img| && y * stride + 4 * w <= |s|
    ensures CopiedFrame(s, img, w, stride, h, y + 1)
         == Splice(CopiedFrame(s, img, w, stride, h, y), y * stride, img[y * (4 * w)..y * (4 * w) + 4 * w])
  {
    RowInside(y, h, stride);
    RowInside(y, h, 4 * w);
    assert y + 1 - 1 == y;
  }

  /** scale_image with the offset its right-margin memset uses as written:
      dst_x2 bytes into the row. */
  method ScaleImage(img: Image.Image, fb: Display.FrameBuffer)
    requires img.Valid() && fb.Drawable() && img.data != fb.data
    requires img.width > 0 && img.height > 0
    modifies fb.data
    ensures var p := Place(fb.width, fb.height, img.width, img.height);
      ScaledOver(fb.data[..], old(fb.data[..]), fb.stride, p, p.X2(), img.data[..], img.width, img.height)
  {
    var p := Place(fb.width, fb.height, img.width, img.height);
    DrawScaled(img, fb, p, p.X2());
  }

  /** scale_image with the right-margin memset at pixel dst_x2, byte
      4 * dst_x2 of the row. */
  method ScaleImageCleared(img: Image.Image, fb: Display.FrameBuffer)
    requires img.Valid() && fb.Drawable() && img.data != fb.data
    requires img.width > 0 && img.height > 0
    modifies fb.data
    ensures var p := Place(fb.width, fb.height, img.width, img.height);
      ScaledOver(fb.data[..], old(fb.data[..]), fb.stride, p, 4 * p.X2(), img.data[..], img.width, img.height)
  {
    var p := Place(fb.width, fb.height, img.width, img.height);
    DrawScaled(img, fb, p, 4 * p.X2());
  }

  /** The body of scale_image, its right-margin memset starting at byte
      `rightAt` of each row: the rows above and below the box cleared,
      then every row of the box drawn. */
  method DrawScaled(img: Image.Image, fb: Display.FrameBuffer, p: Placement, rightAt: nat)
    requires img.Valid() && fb.Drawable() && img.data != fb.data
    requires p.fbW == fb.width && p.fbH == fb.height && p.Fits(img.width, img.height) && rightAt <= 4 * p.X2()
    modifies fb.data
    ensures ScaledOver(fb.data[..], old(fb.data[..]), fb.stride, p, rightAt, img.data[..], img.width, img.height)
  {
    var data: array<bv8> := fb.data;
    var stride, w, h := fb.stride, img.width, img.height;
    var pic := img.data[..];
    ghost var before := data[..];
    assert p.fbH * stride == stride * p.fbH && |pic| == h * (4 * w);
    assert Layout(before, stride, p, pic, w, h);
    ClearOutside(data, stride, p);
    DrawRows(data, stride, p, rightAt, pic, w, h);
  }

  /** The memsets above and below the box. */
  method ClearOutside(data: array<bv8>, stride: nat, p: Placement)
    requires p.Y2() <= p.fbH && p.fbH * stride <= data.Length
    modifies data
    ensures data[..] == Margins(old(data[..]), stride, p)
  {
    MulMono(p.y1, p.fbH, stride);
    MulMono(p.Y2(), p.fbH, stride);
    assert (p.fbH - p.Y2()) * stride + p.Y2() * stride == p.fbH * stride;
    Zero(data, 0, p.y1 * stride);
    Zero(data, p.Y2() * stride, (p.fbH - p.Y2()) * stride);
  }

  /** scale_image's row loop: every row of the box drawn over `data`. */
  method DrawRows(data: array<bv8>, stride: nat, p: Placement, rightAt: nat, pic: seq<bv8>, w: nat, h: nat)
    requires Layout(data[..], stride, p, pic, w, h) && rightAt <= 4 * p.X2()
    modifies data
    ensures Layout(old(data[..]), stride, p, pic, w, h)
    ensures data[..] == RowsDrawn(old(data[..]), stride, p, rightAt, pic, w, h, p.dstH)
  {
    ghost var m := data[..];
    var k := 0;
    while k < p.dstH
      invariant k <= p.dstH
      invariant data[..] == RowsDrawn(m, stride, p, rightAt, pic, w, h, k)
    {
      DrawRow(data, stride, p, rightAt, pic, w, h, m, k);
      k := k + 1;
    }
  }

  /** One turn of the row loop: row dst_y1 + k of the frame drawn from
      the source row it samples. */
  method DrawRow(data: array<bv8>, stride: nat, p: Placement, rightAt: nat, pic: seq<bv8>, w: nat, h: nat, ghost m: seq<bv8>, k: nat)
    requires Layout(m, stride, p, pic, w, h) && rightAt <= 4 * p.X2() && k < p.dstH
    requires data[..] == RowsDrawn(m, stride, p, rightAt, pic, w, h, k)
    modifies data
    ensures data[..] == RowsDrawn(m, stride, p, rightAt, pic, w, h, k + 1)
  {
    var y := p.y1 + k;
    var imgY := SrcIndex(k, h, p.num, p.den);
    RowInside(y, p.fbH, stride);
    MulMono(0, y, stride);
    ghost var prev := data[..];
    var src := SrcRow(pic, w, h, imgY);
    DrawLine(data, y * stride, stride, p, rightAt, src, w);
    DrawnNext(m, prev, stride, p, rightAt, pic, w, h, k, y, y * stride, src);
  }

  /** The loop step of DrawScaled: row `y`, the next row of the box, drawn
      over `prev`. */
  lemma DrawnNext(m: seq<bv8>, prev: seq<bv8>, stride: nat, p: Placement, rightAt: nat, img: seq<bv8>, w: nat, h: nat, k: nat, y: nat, at: nat, src: seq<bv8>)
    requires Layout(m, stride, p, img, w, h) && rightAt <= 4 * p.X2() && k < p.dstH
    requires y == p.y1 + k && at == y * stride && at + stride <= |prev|
    requires src == SrcRow(img, w, h, SrcIndex(k, h, p.num, p.den))
    requires prev == RowsDrawn(m, stride, p, rightAt, img, w, h, k)
    ensures Splice(prev, at, Line(prev[at..at + stride], p, rightAt, src, w)) == RowsDrawn(m, stride, p, rightAt, img, w, h, k + 1)
  {
    RowInside(y, p.fbH, stride);
    DrawnBody(m, stride, p, rightAt, img, w, h, k, at, prev[at..at + stride], src);
  }

  /** RowsDrawn's own step, with the row offset and the source row named. */
  lemma DrawnBody(m: seq<bv8>, stride: nat, p: Placement, rightAt: nat, img: seq<bv8>, w: nat, h: nat, k: nat, at: nat, row: seq<bv8>, src: seq<bv8>)
    requires Layout(m, stride, p, img, w, h) && rightAt <= 4 * p.X2() && k < p.dstH
    requires at == (p.y1 + k) * stride && at + stride <= p.fbH * stride
    requires src == SrcRow(img, w, h, SrcIndex(k, h, p.num, p.den))
    requires row == Row(RowsDrawn(m, stride, p, rightAt, img, w, h, k), stride, p.fbH, p.y1 + k, stride)
    ensures RowsDrawn(m, stride, p, rightAt, img, w, h, k + 1)
         == Splice(RowsDrawn(m, stride, p, rightAt, img, w, h, k), at, Line(row, p, rightAt, src, w))
  {
    DrawnOnce(m, stride, p, rightAt, img, w, h, k);
    StepSplices(RowsDrawn(m, stride, p, rightAt, img, w, h, k), stride, p, rightAt, img, w, h, k, at, row, src);
  }

  /** Drawing k + 1 rows is drawing row `k` after the first `k`. */
  lemma DrawnOnce(m: seq<bv8>, stride: nat, p: Placement, rightAt: nat, img: seq<bv8>, w: nat, h: nat, k: nat)
    requires Layout(m, stride, p, img, w, h) && rightAt <= 4 * p.X2() && k < p.dstH
    ensures RowsDrawn(m, stride, p, rightAt, img, w, h, k + 1)
         == DrawStep(RowsDrawn(m, stride, p, rightAt, img, w, h, k), stride, p, rightAt, img, w, h, k)
  {
  }

  /** DrawStep splices the drawn line in at the row's offset. */
  lemma StepSplices(prev: seq<bv8>, stride: nat, p: Placement, rightAt: nat, img: seq<bv8>, w: nat, h: nat, k: nat, at: nat, row: seq<bv8>, src: seq<bv8>)
    requires Layout(prev, stride, p, img, w, h) && rightAt <= 4 * p.X2() && k < p.dstH
    requires at == (p.y1 + k) * stride && at + stride <= p.fbH * stride
    requires src == SrcRow(img, w, h, SrcIndex(k, h, p.num, p.den))
    requires row == Row(prev, stride, p.fbH, p.y1 + k, stride)
    ensures DrawStep(prev, stride, p, rightAt, img, w, h, k) == Splice(prev, at, Line(row, p, rightAt, src, w))
  {
  }

  /** One row of the box at byte `at` of `buf` (a row of `len` bytes):
      both margin memsets, then pixel by pixel the sampled pixel of the
      source row `src`. */
  method DrawLine(buf: array<bv8>, at: nat, len: nat, p: Placement, rightAt: nat, src: seq<bv8>, w: nat)
    requires p.den > 0 && p.dstW == w * p.num / p.den && p.X2() <= p.fbW && rightAt <= 4 * p.X2()
    requires 4 * p.fbW <= len && at + len <= buf.Length && |src| == 4 * w
    modifies buf
    ensures buf[..] == Splice(old(buf[..]), at, Line(old(buf[at..at + len]), p, rightAt, src, w))
  {
    ghost var before := buf[..];
    ClearMargins(buf, at, 4 * p.x1, rightAt, 4 * (p.fbW - p.X2()));
    ghost var cleared := buf[..];
    DrawSpan(buf, at + 4 * p.x1, src, w, p.num, p.den, p.dstW);
    assert buf[..] == Splice(cleared, at + 4 * p.x1, Span(src, w, p.num, p.den, p.dstW));
    LineSpliced(before, at, len, p, rightAt, src, w);
    assert buf[..] == Splice(before, at, Line(before[at..at + len], p, rightAt, src, w));
    assert before == old(buf[..]) && before[at..at + len] == old(buf[at..at + len]);
  }

  /** The two margin memsets of a row of the box: `left` bytes at the start
      of the row, `right` bytes from byte `rightAt`. */
  method ClearMargins(buf: array<bv8>, at: nat, left: nat, rightAt: nat, right: nat)
    requires at + left <= buf.Length && at + rightAt + right <= buf.Length
    modifies buf
    ensures buf[..] == Splice(Splice(old(buf[..]), at, Zeros(left)), at + rightAt, Zeros(right))
  {
    Zero(buf, at, left);
    Zero(buf, at + rightAt, right);
  }

  /** The pixel loop of scale_image: `n` sampled pixels of the source row
      `src` stored one after the other from byte `base`. */
  method DrawSpan(buf: array<bv8>, base: nat, src: seq<bv8>, w: nat, num: nat, den: nat, n: nat)
    requires den > 0 && |src| == 4 * w && n <= w * num / den && base + 4 * n <= buf.Length
    modifies buf
    ensures buf[..] == Splice(old(buf[..]), base, Span(src, w, num, den, n))
  {
    ghost var cleared := buf[..];
    SpliceSelf(cleared, base, 0);
    assert cleared[base..base] == Span(src, w, num, den, 0);
    var k := 0;
    while k < n
      invariant k <= n
      invariant buf[..] == Splice(cleared, base, Span(src, w, num, den, k))
    {
      PutSample(buf, base, src, w, num, den, n, k, cleared);
      k := k + 1;
    }
  }

  /** One turn of the pixel loop: the sampled pixel `k` stored at its word. */
  method PutSample(buf: array<bv8>, base: nat, src: seq<bv8>, w: nat, num: nat, den: nat, n: nat, k: nat, ghost cleared: seq<bv8>)
    requires den > 0 && |src| == 4 * w && k < n <= w * num / den && base + 4 * n <= buf.Length == |cleared|
    requires buf[..] == Splice(cleared, base, Span(src, w, num, den, k))
    modifies buf
    ensures buf[..] == Splice(cleared, base, Span(src, w, num, den, k + 1))
  {
    var srcX := SrcIndex(k, w, num, den);
    Put(buf, base + 4 * k, src[4 * srcX..4 * srcX + 4]);
    SpanGrows(cleared, base, src, w, num, den, n, k, base + 4 * k);
  }

  /** The pixel loop's step: one more sampled pixel after the first `k`. */
  lemma SpanGrows(s: seq<bv8>, base: nat, src: seq<bv8>, w: nat, num: nat, den: nat, n: nat, k: nat, at: nat)
    requires den > 0 && |src| == 4 * w && k < n <= w * num / den
    requires at == base + 4 * k && base + 4 * n <= |s|
    ensures var i := SrcIndex(k, w, num, den);
      Splice(Splice(s, base, Span(src, w, num, den, k)), at, src[4 * i..4 * i + 4])
      == Splice(s, base, Span(src, w, num, den, k + 1))
  {
    SpliceAppend(s, base, Span(src, w, num, den, k), Word(src, 0, SrcIndex(k, w, num, den)));
  }

  /** A drawn row spliced into the buffer is the three edits DrawLine makes
      to the buffer. */
  lemma LineSpliced(s: seq<bv8>, at: nat, len: nat, p: Placement, rightAt: nat, src: seq<bv8>, w: nat)
    requires p.den > 0 && p.dstW == w * p.num / p.den && p.X2() <= p.fbW && |src| == 4 * w
    requires rightAt <= 4 * p.X2() && 4 * p.fbW <= len && at + len <= |s|
    ensures var cleared := Splice(Splice(s, at, Zeros(4 * p.x1)), at + rightAt, Zeros(4 * (p.fbW - p.X2())));
      Splice(s, at, Line(s[at..at + len], p, rightAt, src, w)) == Splice(cleared, at + 4 * p.x1, Span(src, w, p.num, p.den, p.dstW))
  {
    var row := s[at..at + len];
    var z1, z2, span := Zeros(4 * p.x1), Zeros(4 * (p.fbW - p.X2())), Span(src, w, p.num, p.den, p.dstW);
    var l1 := Splice(row, 0, z1);
    var l2 := Splice(l1, rightAt, z2);
    SpliceSelf(s, at, len);
    SpliceNest(s, at, row, 0, z1);
    var c1 := Splice(s, at, l1);
    assert c1 == Splice(s, at, z1);
    SpliceNest(s, at, l1, rightAt, z2);
    var c2 := Splice(s, at, l2);
    assert c2 == Splice(c1, at + rightAt, z2);
    SpliceNest(s, at, l2, 4 * p.x1, span);
  }

  lemma DivAtMost(a: nat, b: nat, c: nat)
    requires b > 0 && a <= c * b
    ensures a / b <= c
  {
    var q := a / b;
    assert q * b <= a;
    if q > c {
      MulMono(c + 1, q, b);
    }
  }

  lemma DivBelow(a: nat, b: nat, c: nat)
    requires b > 0 && a < c * b
    ensures a / b < c
  {
    var q := a / b;
    assert q * b <= a;
    if q >= c {
      MulMono(c, q, b);
    }
  }

  lemma DivExact(a: nat, b: nat)
    requires b > 0
    ensures b * a / b == a
  {
    var q := b * a / b;
    assert q * b <= b * a < q * b + b;
    if q < a {
      MulMono(q + 1, a, b);
    } else if q > a {
      MulMono(a + 1, q, b);
    }
  }

  /** An extent of `img` pixels scaled by num / den, truncated, when that
      fits in `fb` pixels. */
  function ScaledFit(fb: nat, img: nat, num: nat, den: nat): (d: nat)
    requires den > 0 && img * num <= fb * den
    ensures d == img * num / den && d <= fb
  {
    DivAtMost(img * num, den, fb);
    img * num / den
  }

  lemma HalvesFit(n: nat, m: nat)
    requires m <= n
    ensures m / 2 <= n / 2 && n / 2 - m / 2 + m <= n
  {
  }
}
