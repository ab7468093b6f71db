// The presentation loop of sshow.c: next_image, which loads the next
// decodable image of the list, and slide_show, which draws every image into
// the buffer the display draws into (fb[0] on the first frame, then the
// buffer not on screen) and flips to it until the stop flag is set or the
// list runs out. The decoder, the allocator, the page-flip outcome and the
// signal that sets the stop flag are inputs.

module SlideShow {
  import opened Memory
  import opened ImgList
  import Image
  import Display
  import Compositor

  /** Every successful decode describes its scanlines consistently. */
  ghost predicate Decoder(decode: Path -> Option<Image.Jpeg>) {
    forall p :: decode(p).Some? ==> decode(p).value.WellFormed()
  }

  /** image_load on `path`: the decode, then the pixel allocation. */
  method LoadPath(path: Path, decode: Path -> Option<Image.Jpeg>, allocOk: Path -> bool) returns (img: Option<Image.Image>)
    requires Decoder(decode)
    ensures img.Some? <==> decode(path).Some? && allocOk(path)
    ensures img.Some? ==> Loaded(img.value, decode(path).value) && fresh(img.value.data)
  {
    img := Image.Load(decode(path), allocOk(path));
  }

  /** `img` is the decode `j` laid out as packed XRGB rows. */
  ghost predicate Loaded(img: Image.Image, j: Image.Jpeg)
    reads img.data
  {
    && j.WellFormed() && img.Valid()
    && img.width == j.width && img.height == j.height
    && Image.RowsDecoded(img.data[..], j, j.height)
  }

  /** next_image: takes the next entry of the list; while there is one,
      tries to load it, and on failure turns its slot into a tombstone
      (imglist_skip) and takes the next. An image is returned only for the
      entry the cursor rests on, which the loader accepted; no image only
      when the list yielded NULL. Every rejected path costs one live entry,
      which is why the loop ends. */
  method NextImage(list: List, rng: Random, decode: Path -> Option<Image.Jpeg>, allocOk: Path -> bool)
    returns (img: Option<Image.Image>, ghost skipped: nat)
    requires list.Valid() && Decoder(decode)
    modifies list`current, list.files, rng
    ensures list.Valid() && list.current < list.size
    ensures img.Some? ==>
      var e := list.files[list.current];
      && e.Some? && decode(e.value).Some? && allocOk(e.value)
      && Loaded(img.value, decode(e.value).value) && fresh(img.value.data)
    ensures img.None? ==> list.files[list.current].None?
    ensures LiveCount(list.files[..list.size]) + skipped == old(LiveCount(list.files[..list.size]))
  {
    ghost var s0 := list.files[..list.size];
    ghost var c0, d0 := list.current, rng.drawn;
    var entry := list.Next(rng);
    NextKeepsLive(s0, c0, rng.values, d0);
    skipped := 0;
    while entry.Some?
      invariant list.Valid() && list.current < list.size && entry == list.files[list.current]
      invariant LiveCount(list.files[..list.size]) + skipped == old(LiveCount(list.files[..list.size]))
      decreases LiveCount(list.files[..list.size])
    {
      img := LoadPath(entry.value, decode, allocOk);
      if img.Some? {
        return;
      }
      ghost var s, c, d := list.files[..list.size], list.current, rng.drawn;
      entry := list.Skip(rng);
      SkipDropsOne(s, c, rng.values, d);
      skipped := skipped + 1;
    }
    img := None;
  }

  /** The `w` x `h` image `pic` as slide_show puts it over the frame
      `before` (rows `stride` bytes apart, `fbW` x `fbH` pixels): copied
      when the sizes agree, scaled into the centred box otherwise. */
  ghost predicate Painted(after: seq<bv8>, before: seq<bv8>, stride: nat, fbW: nat, fbH: nat, pic: seq<bv8>, w: nat, h: nat) {
    if w == fbW && h == fbH then
      && h * stride <= |before| && 4 * w <= stride && |pic| == h * (4 * w)
      && after == Compositor.CopiedFrame(before, pic, w, stride, h, h)
    else
      && w > 0 && h > 0
      && var p := Compositor.Place(fbW, fbH, w, h);
         Compositor.ScaledOver(after, before, stride, p, 4 * p.X2(), pic, w, h)
  }

  /** The choice in slide_show's loop: copy_image when the image has the
      frame's size, scale_image otherwise. */
  method Paint(img: Image.Image, fb: Display.FrameBuffer)
    requires img.Valid() && img.width > 0 && img.height > 0 && fb.Drawable() && img.data != fb.data
    modifies fb.data
    ensures Painted(fb.data[..], old(fb.data[..]), fb.stride, fb.width, fb.height, img.data[..], img.width, img.height)
  {
    if img.width == fb.width && img.height == fb.height {
      PaintCopy(img, fb);
    } else {
      PaintScaled(img, fb);
    }
  }

  /** Paint when the image has the frame's size: copy_image. */
  method PaintCopy(img: Image.Image, fb: Display.FrameBuffer)
    requires img.Valid() && fb.Drawable() && img.data != fb.data
    requires img.width == fb.width && img.height == fb.height
    modifies fb.data
    ensures Painted(fb.data[..], old(fb.data[..]), fb.stride, fb.width, fb.height, img.data[..], img.width, img.height)
  {
    ghost var before := fb.data[..];
    Compositor.CopyImage(img, fb);
    MulMono(4 * img.width, fb.stride, img.height);
    PaintedByCopy(fb.data[..], before, fb.stride, fb.width, fb.height, img.data[..], img.width, img.height);
  }

  /** Paint when it has not: scale_image. */
  method PaintScaled(img: Image.Image, fb: Display.FrameBuffer)
    requires img.Valid() && img.width > 0 && img.height > 0 && fb.Drawable() && img.data != fb.data
    requires !(img.width == fb.width && img.height == fb.height)
    modifies fb.data
    ensures Painted(fb.data[..], old(fb.data[..]), fb.stride, fb.width, fb.height, img.data[..], img.width, img.height)
  {
    ghost var before := fb.data[..];
    Compositor.ScaleImageCleared(img, fb);
    PaintedByScaling(fb.data[..], before, fb.stride, fb.width, fb.height, img.data[..], img.width, img.height);
  }

  /** The scaling branch of Painted, from what scale_image ensures. */
  lemma PaintedByScaling(after: seq<bv8>, before: seq<bv8>, stride: nat, fbW: nat, fbH: nat, pic: seq<bv8>, w: nat, h: nat)
    requires !(w == fbW && h == fbH) && w > 0 && h > 0
    requires var p := Compositor.Place(fbW, fbH, w, h);
      Compositor.ScaledOver(after, before, stride, p, 4 * p.X2(), pic, w, h)
    ensures Painted(after, before, stride, fbW, fbH, pic, w, h)
  {
  }

  /** The copy branch of Painted, from what copy_image ensures. */
  lemma PaintedByCopy(after: seq<bv8>, before: seq<bv8>, stride: nat, fbW: nat, fbH: nat, pic: seq<bv8>, w: nat, h: nat)
    requires w == fbW && h == fbH && h * stride <= |before| && 4 * w <= stride && |pic| == h * (4 * w)
    requires after == Compositor.CopiedFrame(before, pic, w, stride, h, h)
    ensures Painted(after, before, stride, fbW, fbH, pic, w, h)
  {
  }

  /** The body of slide_show's loop once an image is loaded: display_draw
      gives the buffer `cfb` points to (fb[0], the buffer on screen, on the
      first frame; the back buffer after that), the image is painted into
      it, display_commit flips to it and makes the other buffer the target.
      Only the buffer drawn into changes. */
  method ShowFrame(d: Display.Display, img: Image.Image, flipOk: bool)
    requires d.Valid() && img.Valid() && img.width > 0 && img.height > 0
    requires img.data != d.fb0.data && img.data != d.fb1.data
    modifies d`cfb, d`log, d.fb0.data, d.fb1.data
    ensures d.Valid() && d.cfb == d.Other(old(d.cfb))
    ensures d.log == old(d.log) + [Display.PageFlip(old(d.cfb).id, flipOk)]
    ensures var fb := old(d.cfb);
      Painted(fb.data[..], old(fb.data[..]), fb.stride, fb.width, fb.height, img.data[..], img.width, img.height)
    ensures var next := d.cfb; next.data[..] == old(next.data[..])
  {
    var fb := d.Draw();
    Paint(img, fb);
    d.Commit(flipOk);
  }

  /** The list's array is neither frame buffer's memory: one is allocated
      on the heap, the others are mappings of the card. */
  ghost predicate Apart(list: List, d: Display.Display)
    reads list, d, d.fb0, d.fb1
  {
    list.files as object? != d.fb0.data as object? && list.files as object? != d.fb1.data as object?
  }

  /** The flips slide_show asks for in its first `n` frames: frame `k`
      flips to buffer `a` when `k` is even and to `b` when it is odd, with
      outcome `flips(k)`. */
  ghost function FlipLog(a: nat, b: nat, flips: nat -> bool, n: nat): (l: seq<Display.Event>)
    ensures |l| == n
  {
    if n == 0 then []
    else FlipLog(a, b, flips, n - 1) + [Display.PageFlip(if (n - 1) % 2 == 0 then a else b, flips(n - 1))]
  }

  /** Entry `k` of the flips is the flip of frame `k`, to the buffer drawn
      in that frame. */
  lemma {:induction false} FlipLogAt(a: nat, b: nat, flips: nat -> bool, n: nat, k: nat)
    requires k < n
    ensures FlipLog(a, b, flips, n)[k] == Display.PageFlip(if k % 2 == 0 then a else b, flips(k))
  {
    if k < n - 1 {
      FlipLogAt(a, b, flips, n - 1, k);
    }
  }

  /** slide_show: until the stop flag is seen set, shows the next image
      and flips; gives up when the list has no image left. The flag is
      found set at the check before frame `stopAt` (a signal that never
      comes is a `stopAt` past the last image); the frame shown `k`-th
      flips with outcome `flips(k)`. Returns the flag: true when stopped
      by it, false when the images ran out first. The frames alternate
      between the two buffers, starting with the one `cfb` points to, and
      each asks for exactly one flip, to the buffer it drew. */
  method Run(list: List, rng: Random, d: Display.Display, decode: Path -> Option<Image.Jpeg>, allocOk: Path -> bool,
             flips: nat -> bool, stopAt: nat) returns (stopped: bool, shown: nat)
    requires list.Valid() && d.Valid() && Decoder(decode) && Apart(list, d)
    modifies list`current, list.files, rng, d`cfb, d`log, d.fb0.data, d.fb1.data
    ensures list.Valid() && d.Valid()
    ensures shown <= stopAt && (stopped <==> shown == stopAt)
    ensures !stopped ==> list.current < list.size && list.files[list.current].None?
    ensures d.cfb == (if shown % 2 == 0 then old(d.cfb) else d.Other(old(d.cfb)))
    ensures d.log == old(d.log) + FlipLog(old(d.cfb).id, d.Other(old(d.cfb)).id, flips, shown)
  {
    ghost var first, second := d.cfb, d.Other(d.cfb);
    shown := 0;
    while shown < stopAt
      invariant list.Valid() && d.Valid() && Apart(list, d) && shown <= stopAt
      invariant (first == d.fb0 || first == d.fb1) && second == d.Other(first)
      invariant Flipped(d, old(d.log), first, second, flips, shown)
      decreases stopAt - shown
    {
      var more := Step(list, rng, d, decode, allocOk, flips, shown, old(d.log), first, second);
      if !more {
        return false, shown;
      }
      shown := shown + 1;
    }
    return true, shown;
  }

  /** After `n` frames: the target is the buffer frame `n` draws into, and
      the log holds the flips of the `n` frames after `log0`. */
  ghost predicate Flipped(d: Display.Display, log0: seq<Display.Event>, first: Display.FrameBuffer, second: Display.FrameBuffer,
                          flips: nat -> bool, n: nat)
    reads d, first, second
  {
    && d.cfb == (if n % 2 == 0 then first else second)
    && d.log == log0 + FlipLog(first.id, second.id, flips, n)
  }

  /** ShowNext as Run's loop sees it: either no image was left, or frame
      `n` was shown and flipped. */
  method Step(list: List, rng: Random, d: Display.Display, decode: Path -> Option<Image.Jpeg>, allocOk: Path -> bool,
              flips: nat -> bool, n: nat, ghost log0: seq<Display.Event>, ghost first: Display.FrameBuffer, ghost second: Display.FrameBuffer)
    returns (more: bool)
    requires list.Valid() && d.Valid() && Decoder(decode) && Apart(list, d)
    requires (first == d.fb0 || first == d.fb1) && second == d.Other(first)
    requires Flipped(d, log0, first, second, flips, n)
    modifies list`current, list.files, rng, d`cfb, d`log, d.fb0.data, d.fb1.data
    ensures list.Valid() && d.Valid() && list.current < list.size
    ensures !more ==> list.files[list.current].None? && Flipped(d, log0, first, second, flips, n)
    ensures more ==> Flipped(d, log0, first, second, flips, n + 1)
  {
    ghost var was := d.cfb;
    more := Turn(list, rng, d, decode, allocOk, flips(n));
    if more {
      assert d.cfb == d.Other(was);
      assert d.Other(first) == second && d.Other(second) == first;
      assert FlipLog(first.id, second.id, flips, n + 1)
          == FlipLog(first.id, second.id, flips, n) + [Display.PageFlip(if n % 2 == 0 then first.id else second.id, flips(n))];
    }
  }

  /** ShowNext with only what Step needs of its outcome: the cursor, the
      target buffer and the log. */
  method Turn(list: List, rng: Random, d: Display.Display, decode: Path -> Option<Image.Jpeg>, allocOk: Path -> bool, flipOk: bool)
    returns (more: bool)
    requires list.Valid() && d.Valid() && Decoder(decode) && Apart(list, d)
    modifies list`current, list.files, rng, d`cfb, d`log, d.fb0.data, d.fb1.data
    ensures list.Valid() && d.Valid() && list.current < list.size
    ensures !more ==> list.files[list.current].None? && d.cfb == old(d.cfb) && d.log == old(d.log)
    ensures more ==> d.cfb == d.Other(old(d.cfb)) && d.log == old(d.log) + [Display.PageFlip(old(d.cfb).id, flipOk)]
  {
    var img := ShowNext(list, rng, d, decode, allocOk, flipOk);
    more := img.Some?;
  }

  /** One turn of slide_show's loop: no image left, and no flip asked
      for; or the image loaded from the entry the cursor rests on,
      painted into the buffer `cfb` pointed to, and a flip to that buffer
      asked for. */
  method ShowNext(list: List, rng: Random, d: Display.Display, decode: Path -> Option<Image.Jpeg>, allocOk: Path -> bool,
                  flipOk: bool) returns (img: Option<Image.Image>)
    requires list.Valid() && d.Valid() && Decoder(decode) && Apart(list, d)
    modifies list`current, list.files, rng, d`cfb, d`log, d.fb0.data, d.fb1.data
    ensures list.Valid() && d.Valid() && list.current < list.size
    ensures img.None? ==>
      && list.files[list.current].None? && d.cfb == old(d.cfb) && d.log == old(d.log)
      && d.fb0.data[..] == old(d.fb0.data[..]) && d.fb1.data[..] == old(d.fb1.data[..])
    ensures img.Some? ==>
      var e := list.files[list.current];
      && e.Some? && decode(e.value).Some? && allocOk(e.value)
      && Loaded(img.value, decode(e.value).value) && fresh(img.value.data)
    ensures img.Some? ==>
      && d.cfb == d.Other(old(d.cfb))
      && d.log == old(d.log) + [Display.PageFlip(old(d.cfb).id, flipOk)]
    ensures img.Some? ==> var fb := old(d.cfb);
      Painted(fb.data[..], old(fb.data[..]), fb.stride, fb.width, fb.height,
              img.value.data[..], img.value.width, img.value.height)
    ensures img.Some? ==> var next := d.cfb; next.data[..] == old(next.data[..])
  {
    ghost var skipped;
    img, skipped := NextImage(list, rng, decode, allocOk);
    if img.Some? {
      ShowFrame(d, img.value, flipOk);
    }
  }
}
