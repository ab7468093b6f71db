/** The decoded-image layout and the in-place conversion of JPEG scanlines
    into packed 32-bit XRGB pixels (slideshow/src/image.c). The JPEG decoder
    itself is an oracle: it either fails or hands over the output size, the
    number of colour components and the raw bytes of every scanline. */
module Image {
  import opened Memory

  /** A decoded image: `height` rows of `width` pixels, 4 bytes per pixel,
      rows packed one after the other (stride `4 * width`). */
  datatype Image = Image(width: nat, height: nat, data: array<bv8>) {
    predicate Valid() {
      data.Length == 4 * width * height
    }
  }

  /** What a successful decode hands over: the output size, the number of
      colour components per pixel and, per row, the scanline of
      `width * components` bytes the decoder writes. */
  datatype Jpeg = Jpeg(width: nat, height: nat, components: nat, scanlines: seq<seq<bv8>>) {
    predicate WellFormed() {
      && width > 0 && height > 0 && |scanlines| == height
      && 1 <= components <= 4
      && forall y :: 0 <= y < height ==> |scanlines[y]| == width * components
    }
  }

  /** The 32-bit pixel 0xff000000 | r << 16 | g << 8 | b. */
  function Xrgb(r: bv8, g: bv8, b: bv8): bv32 {
    (0xff as bv32 << 24) | ((r as bv32) << 16) | ((g as bv32) << 8) | (b as bv32)
  }

  /** In memory an XRGB pixel reads blue, green, red, then an opaque 0xff. */
  lemma XrgbBytes(r: bv8, g: bv8, b: bv8)
    ensures StoreLE(Xrgb(r, g, b)) == [b, g, r, 0xff]
  {
  }

  /** The four bytes of pixel (y, x) of a packed image whose rows hold
      `width` pixels: row `y` starts at word `y * width`. */
  function Pixel(data: seq<bv8>, width: nat, y: nat, x: nat): seq<bv8>
    requires x < width && 4 * width * y + 4 * width <= |data|
  {
    Word(data, 4 * width * y, x)
  }

  /** The packed pixel that sample `x` of a grey (1 component) or RGB
      (3 components) scanline becomes. */
  function Expanded(line: seq<bv8>, components: nat, x: nat): seq<bv8>
    requires components == 1 || components == 3
    requires components * x + components <= |line|
  {
    if components == 1 then StoreLE(GreyAt(line, 0, x)) else StoreLE(RgbAt(line, 0, x))
  }

  /** Row `y` of `data` holds scanline `y` of the decode: converted to XRGB
      for grey and RGB output, as the decoder wrote it otherwise. */
  ghost predicate RowDecoded(data: seq<bv8>, j: Jpeg, y: nat) {
    && j.WellFormed() && y < j.height
    && 4 * j.width * y + 4 * j.width <= |data|
    && 4 * j.width * y + |j.scanlines[y]| <= |data|
    && if j.components == 1 || j.components == 3 then
         forall x :: 0 <= x < j.width ==>
           Pixel(data, j.width, y, x) == Expanded(j.scanlines[y], j.components, x)
       else
         data[4 * j.width * y .. 4 * j.width * y + |j.scanlines[y]|] == j.scanlines[y]
  }

  /** Widens the `width` samples at byte `at` of `line` into packed XRGB
      words in place; any other component count leaves the bytes as they
      are. */
  method WidenLine(line: array<bv8>, at: nat, width: nat, components: int)
    requires at + 4 * width <= line.Length
    modifies line
    ensures line[..at] == old(line[..at])
    ensures line[at + 4 * width..] == old(line[at + 4 * width..])
    ensures components == 1 ==> forall x :: 0 <= x < width ==>
      Word(line[..], at, x) == StoreLE(GreyAt(old(line[..]), at, x))
    ensures components == 3 ==> forall x :: 0 <= x < width ==>
      Word(line[..], at, x) == StoreLE(RgbAt(old(line[..]), at, x))
    ensures components != 1 && components != 3 ==> line[..] == old(line[..])
  {
    if components == 1 {
      WidenGrey(line, at, width);
    } else if components == 3 {
      WidenRgb(line, at, width);
    }
  }

  /** The pixel that grey sample `x` of the scanline at byte `at` of `s` becomes. */
  function GreyAt(s: seq<bv8>, at: nat, x: nat): bv32
    requires at + x < |s|
  {
    Xrgb(s[at + x], s[at + x], s[at + x])
  }

  /** The pixel that RGB sample `x` of the scanline at byte `at` of `s` becomes. */
  function RgbAt(s: seq<bv8>, at: nat, x: nat): bv32
    requires at + 3 * x + 2 < |s|
  {
    Xrgb(s[at + 3 * x], s[at + 3 * x + 1], s[at + 3 * x + 2])
  }

  /** The pixel that sample `x` of a grey or RGB scanline at byte `at` of
      `s` becomes. */
  function SampleAt(s: seq<bv8>, at: nat, x: nat, components: nat): bv32
    requires components == 1 || components == 3
    requires at + components * x + components <= |s|
  {
    if components == 1 then GreyAt(s, at, x) else RgbAt(s, at, x)
  }

  /** A widening loop of `width` samples at byte `at`, run from the last
      pixel down to pixel `x` + 1, over the bytes `src`: the pixels after
      `x` are widened, the bytes of pixels 0 .. x (which hold every sample
      still to be read) and those after the line are as they were. */
  ghost predicate Widening(cur: seq<bv8>, src: seq<bv8>, at: nat, width: nat, components: nat, x: int) {
    && (components == 1 || components == 3)
    && |cur| == |src| && at + 4 * width <= |src| && -1 <= x < width
    && (forall k :: 0 <= k < at + 4 * (x + 1) ==> cur[k] == src[k])
    && (forall k :: at + 4 * width <= k < |cur| ==> cur[k] == src[k])
    && (forall x' :: x < x' < width ==> Word(cur, at, x') == StoreLE(SampleAt(src, at, x', components)))
  }

  /** Storing pixel `x` widened, and nothing else, takes the loop one pixel
      down. */
  lemma WidenTurn(before: seq<bv8>, after: seq<bv8>, src: seq<bv8>, at: nat, width: nat, components: nat, x: nat)
    requires Widening(before, src, at, width, components, x) && |after| == |before|
    requires after[at + 4 * x..at + 4 * x + 4] == StoreLE(SampleAt(src, at, x, components))
    requires forall k :: 0 <= k < |after| && !(at + 4 * x <= k < at + 4 * x + 4) ==> after[k] == before[k]
    ensures Widening(after, src, at, width, components, x - 1)
  {
    forall x' | x < x' < width
      ensures Word(after, at, x') == Word(before, at, x')
    {
      WordKept(after, before, at, x');
    }
  }

  /** A finished widening loop: every pixel of the line widened, the bytes
      outside it as they were. */
  lemma WidenDone(cur: seq<bv8>, src: seq<bv8>, at: nat, width: nat, components: nat)
    requires Widening(cur, src, at, width, components, -1)
    ensures cur[..at] == src[..at] && cur[at + 4 * width..] == src[at + 4 * width..]
  {
  }

  /** The grey loop: last pixel first, so that sample `x` (byte `x`) is read
      before word `x` (bytes `4x .. 4x + 3`) is written over it. */
  method WidenGrey(line: array<bv8>, at: nat, width: nat)
    requires at + 4 * width <= line.Length
    modifies line
    ensures line[..at] == old(line[..at])
    ensures line[at + 4 * width..] == old(line[at + 4 * width..])
    ensures forall x :: 0 <= x < width ==> Word(line[..], at, x) == StoreLE(GreyAt(old(line[..]), at, x))
  {
    ghost var src := line[..];
    var x: int := width - 1;
    while x >= 0
      invariant Widening(line[..], src, at, width, 1, x)
    {
      var c := line[at + x];
      ghost var before := line[..];
      Store(line, at + 4 * x, Xrgb(c, c, c));
      WidenTurn(before, line[..], src, at, width, 1, x);
      x := x - 1;
    }
    WidenDone(line[..], src, at, width, 1);
  }

  /** The RGB loop: last pixel first, so that samples `3x .. 3x + 2` are read
      before word `x` (bytes `4x .. 4x + 3`) is written over them. */
  method WidenRgb(line: array<bv8>, at: nat, width: nat)
    requires at + 4 * width <= line.Length
    modifies line
    ensures line[..at] == old(line[..at])
    ensures line[at + 4 * width..] == old(line[at + 4 * width..])
    ensures forall x :: 0 <= x < width ==> Word(line[..], at, x) == StoreLE(RgbAt(old(line[..]), at, x))
  {
    ghost var src := line[..];
    var x: int := width - 1;
    while x >= 0
      invariant Widening(line[..], src, at, width, 3, x)
    {
      var r, g, b := line[at + 3 * x], line[at + 3 * x + 1], line[at + 3 * x + 2];
      ghost var before := line[..];
      Store(line, at + 4 * x, Xrgb(r, g, b));
      WidenTurn(before, line[..], src, at, width, 3, x);
      x := x - 1;
    }
    WidenDone(line[..], src, at, width, 3);
  }

  /** image_load once the decoder has succeeded or failed: allocates
      `width * height` packed pixels, lets the decoder write scanline `y` at
      the start of row `y` (word `y * width`) and widens it there in place.
      A failed decode or a failed allocation yields no image. */
  method Load(jpeg: Option<Jpeg>, allocOk: bool) returns (img: Option<Image>)
    requires jpeg.Some? ==> jpeg.value.WellFormed()
    ensures img.Some? <==> jpeg.Some? && allocOk
    ensures img.Some? ==>
      && img.value.width == jpeg.value.width && img.value.height == jpeg.value.height
      && img.value.Valid() && fresh(img.value.data)
      && RowsDecoded(img.value.data[..], jpeg.value, jpeg.value.height)
  {
    if jpeg.None? || !allocOk {
      return None;
    }
    var j := jpeg.value;
    var w := j.width;
    var data := new bv8[4 * w * j.height];
    var y := 0;
    while y < j.height
      invariant 0 <= y <= j.height
      invariant RowsDecoded(data[..], j, y)
    {
      DecodeRow(data, j, y);
      y := y + 1;
    }
    return Some(Image(w, j.height, data));
  }

  /** Rows 0 .. n of `data` hold the first `n` decoded scanlines. */
  ghost predicate RowsDecoded(data: seq<bv8>, j: Jpeg, n: nat) {
    forall y :: 0 <= y < n ==> RowDecoded(data, j, y)
  }

  /** One turn of image_load's scanline loop: jpeg_read_scanlines writes
      scanline `y` at the start of row `y`, which is then widened in place. */
  method DecodeRow(data: array<bv8>, j: Jpeg, y: nat)
    requires j.WellFormed() && y < j.height && data.Length == 4 * j.width * j.height
    requires RowsDecoded(data[..], j, y)
    modifies data
    ensures RowsDecoded(data[..], j, y + 1)
  {
    var w := j.width;
    var row := 4 * w * y;
    RowInside(y, j.height, 4 * w);
    MulMono(j.components, 4, w);
    ghost var before := data[..];
    Write(data, row, j.scanlines[y]);
    ghost var written := data[..];
    WidenLine(data, row, w, j.components);
    assert data[..row] == before[..row] by {
      assert data[..row] == written[..row];
    }
    RowsDecodedKept(before, data[..], j, y, row);
    RowDecodedNow(written, data[..], j, y);
  }

  /** The first `n` decoded rows stay decoded when the bytes up to the
      start of row `n` are kept. */
  lemma RowsDecodedKept(a: seq<bv8>, b: seq<bv8>, j: Jpeg, n: nat, k: nat)
    requires j.WellFormed() && RowsDecoded(a, j, n)
    requires |a| == |b| && k == 4 * j.width * n && k <= |a| && a[..k] == b[..k]
    ensures RowsDecoded(b, j, n)
  {
    forall y | 0 <= y < n
      ensures RowDecoded(b, j, y)
    {
      RowBefore(y, n, 4 * j.width);
      RowDecodedKept(a, b, j, y, k);
    }
  }

  /** A decoded row stays decoded when the bytes up to `k`, past its end,
      are kept. */
  lemma RowDecodedKept(a: seq<bv8>, b: seq<bv8>, j: Jpeg, y: nat, k: nat)
    requires RowDecoded(a, j, y)
    requires |a| == |b| && k <= |a| && a[..k] == b[..k]
    requires 4 * j.width * y + 4 * j.width <= k
    ensures RowDecoded(b, j, y)
  {
    var at := 4 * j.width * y;
    assert a[0..k] == b[0..k] by {
      assert a[..k] == a[0..k] && b[..k] == b[0..k];
    }
    SubSlice(a, b, 0, k, at, at + 4 * j.width);
    if j.components == 1 || j.components == 3 {
      WordsAgree(a, b, at, j.width);
    } else {
      MulMono(j.components, 4, j.width);
      SubSlice(a, b, at, at + 4 * j.width, at, at + |j.scanlines[y]|);
    }
  }

  /** After the decoder wrote scanline `y` at its row (`written`) and the
      row was widened (`b`), the row holds the decoded pixels. */
  lemma RowDecodedNow(written: seq<bv8>, b: seq<bv8>, j: Jpeg, y: nat)
    requires j.WellFormed() && y < j.height
    requires 4 * j.width * y + 4 * j.width <= |written| == |b|
    requires j.width * j.components <= 4 * j.width
    requires written[4 * j.width * y .. 4 * j.width * y + |j.scanlines[y]|] == j.scanlines[y]
    requires j.components == 1 ==> forall x :: 0 <= x < j.width ==>
      Word(b, 4 * j.width * y, x) == StoreLE(GreyAt(written, 4 * j.width * y, x))
    requires j.components == 3 ==> forall x :: 0 <= x < j.width ==>
      Word(b, 4 * j.width * y, x) == StoreLE(RgbAt(written, 4 * j.width * y, x))
    requires j.components != 1 && j.components != 3 ==> b == written
    ensures RowDecoded(b, j, y)
  {
    var at := 4 * j.width * y;
    var line := j.scanlines[y];
    if j.components == 1 {
      forall x | 0 <= x < j.width
        ensures Pixel(b, j.width, y, x) == Expanded(line, 1, x)
      {
        GreySample(written, line, at, x);
      }
    } else if j.components == 3 {
      forall x | 0 <= x < j.width
        ensures Pixel(b, j.width, y, x) == Expanded(line, 3, x)
      {
        RgbSample(written, line, at, x);
      }
    }
  }

  /** Grey sample `x` read at byte `at` of `written` is sample `x` of the
      scanline written there. */
  lemma GreySample(written: seq<bv8>, line: seq<bv8>, at: nat, x: nat)
    requires x < |line| && at + |line| <= |written| && written[at..at + |line|] == line
    ensures GreyAt(written, at, x) == GreyAt(line, 0, x)
  {
    assert written[at..at + |line|][x] == line[x];
  }

  /** RGB sample `x` read at byte `at` of `written` is sample `x` of the
      scanline written there. */
  lemma RgbSample(written: seq<bv8>, line: seq<bv8>, at: nat, x: nat)
    requires 3 * x + 2 < |line| && at + |line| <= |written| && written[at..at + |line|] == line
    ensures RgbAt(written, at, x) == RgbAt(line, 0, x)
  {
    assert written[at..at + |line|][3 * x] == line[3 * x];
    assert written[at..at + |line|][3 * x + 1] == line[3 * x + 1];
    assert written[at..at + |line|][3 * x + 2] == line[3 * x + 2];
  }
}
