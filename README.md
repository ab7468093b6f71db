# slideshow core, modelled in Dafny

A model of the core of `slideshow`, a program that shows the JPEG files of
a directory full-screen through DRM/KMS, one after another, in shuffled
order. The modelled parts are:

- **imglist.c** (`imglist.dfy`, module `ImgList`): the list of paths.
  - `add_file` grows the array 256 slots at a time and appends a copy of
    the path; both allocations may fail.
  - `imglist_init` sets the size to the number of files and shuffles.
  - `shuffle` swaps every slot with slot `rand() % size`. `rand()` is an
    input sequence of naturals, held by class `Random`.
  - `imglist_next` is the do-while that steps the cursor cyclically. It
    reshuffles each time it passes the end and stops on a live slot, or
    back on the old cursor. The method `List.Next` is proved against the
    pure function `Scan`.
  - `imglist_skip` turns the current slot into a tombstone (NULL) and
    moves on.
- **image.c** (`image.dfy`, module `Image`): the part of `image_load` after
  the decoder.
  - The pixel buffer is laid out as `width * height` 4-byte XRGB words.
  - Each decoded scanline is widened in place, from the last pixel back
    to the first: one grey byte, or three RGB bytes, become `0xff` alpha
    and the three colour bytes. Stored little-endian, the bytes are
    `b, g, r, 0xff`.
  - libjpeg is an oracle, the value `Jpeg`: its dimensions, its colour
    components and the bytes of each scanline.
- **display.c** (`display.dfy`, module `Display`):
  - the probe of `/dev/dri/card0` and `card1`;
  - the choice of the first connected connector with a mode and an encoder;
  - `create_fb`, with the cleanup after each of its four failure points;
  - `free_fb`, `display_init` and `display_free`;
  - `display_draw` and `display_commit`.

  Every ioctl is replaced by its reply, given as input. A ghost `log` of
  acquisitions, releases, mode sets and flips, together with a ghost set
  `held`, records what is taken and what is given back, in order.
- **sshow.c** (`compositor.dfy`, module `Compositor`, and `slideshow.dfy`,
  module `SlideShow`):
  - `copy_image`, with both its single-`memcpy` path and its row loop;
  - `scale_image`: the aspect-preserving centred box, the cleared bands
    above and below it, the cleared left and right margins of each row,
    and nearest-neighbour sampling;
  - `next_image` and `slide_show`.

  The frame buffer is an `array<bv8>` of `stride`-byte rows. Each drawing
  method is stated against a pure function of the old bytes:
  `CopiedFrame`, `ScaledFrame`, `Margins`, `RowsDrawn` or `Line`. Lemmas
  then state what those functions leave in every row.

`memory.dfy` (module `Memory`) holds the byte-level `memcpy`, `memset` and
32-bit store that the other modules use, the `Option` that stands for a
pointer that may be NULL, and lemmas about splicing bytes into a buffer.

Notes on the model:

- **Scaling.** `scale_image` computes the scale in `float`. The model uses
  the exact ratio `num/den`, either `fb.width / img.width` or
  `fb.height / img.height`. It picks the width ratio exactly when
  `fb.width * img.height < fb.height * img.width`, which is the strict `<`
  of the source.
- **Truncation.** Every `(size_t)` conversion of a product with the scale
  becomes a floor division: `dst_w = img.width * num / den`, and the
  source index `d * den / num`.
- **Tombstones.** `imglist_next` can return NULL while live entries
  remain. When it passes the end, the reshuffle may move a tombstone onto
  the old cursor, and the do-while stops there. `ImgList.NullDespiteLive`
  exhibits this on a two-entry list. `ImgList.AllTombstonesYieldNull`
  proves the converse direction that does hold. `SlideShow.Run` then ends
  with "no more images", as the source does.
- **First frame.** `display_init` sets `cfb` to `fb[0]` and sets the mode on it (display.c:226-228). The first frame is therefore drawn into the buffer on screen and flipped onto itself. Only from the second frame on does `display_draw` return the buffer not on screen. `SlideShow.Run` states this alternation exactly.
- **Stale header.** The header `display.h` declares an interface that
  `display.c` no longer has. The model follows `display.c`.

## Model

| member | source | states |
|---|---|---|
| Memory.Copy | slideshow/src/sshow.c:36-38 | `memcpy` between distinct buffers: the destination becomes its old bytes with `n` source bytes spliced in at `at`, and nothing else changes |
| Memory.Zero | slideshow/src/sshow.c:62-64 | `memset(…, 0, n)`: exactly the `n` bytes from `at` become zero, and the rest of the buffer is unchanged |
| Memory.Put | slideshow/src/sshow.c:77 | the 32-bit pixel store writes exactly those four bytes at `at` and nothing else |
| Memory.Store | slideshow/src/image.c:83 | a 32-bit store of a word writes its little-endian bytes at `at`; every other byte is unchanged |
| Memory.Write | slideshow/src/image.c:76 | the decoder's scanline write fills exactly the bytes of the line at `at` and leaves the rest |
| Image.XrgbBytes | slideshow/src/image.c:92 | the pixel `0xff << 24 \| r << 16 \| g << 8 \| b`, stored little-endian, is the bytes `b, g, r, 0xff` |
| Image.WidenGrey | slideshow/src/image.c:79-84 | the grey loop, which runs from the last pixel down and in place, leaves pixel word `x` as the XRGB of the ORIGINAL grey byte `x` for every `x`; bytes outside the line are untouched |
| Image.WidenRgb | slideshow/src/image.c:85-93 | the same for three-component lines: word `x` is the XRGB of the original bytes `3x`, `3x+1` and `3x+2` |
| Image.WidenTurn | slideshow/src/image.c:81-83 | one iteration keeps the loop invariant: the words above `x` are final, and the bytes not yet read are still the original ones |
| Image.WidenDone | slideshow/src/image.c:87-93 | when the loop ends, the bytes before and after the line are still the original ones |
| Image.WidenLine | slideshow/src/image.c:79-94 | the dispatch on the component count: grey, RGB, or the line left as decoded for any other count |
| Image.DecodeRow | slideshow/src/image.c:74-94 | one iteration of the scanline loop: row `y` becomes the decoded row, and rows before `y` stay decoded |
| Image.RowsDecodedKept | slideshow/src/image.c:73-76 | writing at or past the end of row `n` cannot disturb rows `0..n-1` already decoded |
| Image.RowDecodedNow | slideshow/src/image.c:76-94 | a scanline written at its row and then widened is the row of XRGB pixels of that scanline |
| Image.Load | slideshow/src/image.c:61-95 | no image exactly when the decode or the allocation fails; otherwise the image has the decoded size, a fresh buffer of `4 * width * height` bytes, and every row decoded |
| Compositor.Ratio | slideshow/src/sshow.c:50-52 | the scale is the width ratio or the height ratio; it is the smaller of the two (the width one when strictly smaller), so both scaled sides fit the frame |
| Compositor.ScaledFit | slideshow/src/sshow.c:54-55 | a scaled side `img * num / den` never exceeds the frame side |
| Compositor.Centre | slideshow/src/sshow.c:56-59 | `dst_x1 = fbW/2 - dst_w/2` (likewise for y); the box `[x1, x2) x [y1, y2)` ends inside the frame |
| Compositor.Place | slideshow/src/sshow.c:50-59 | the box of the scaled image fits the frame, with `dst_w` and `dst_h` the scaled sides |
| Compositor.PlaceFills | slideshow/src/sshow.c:50-57 | the box spans the full width with `x1 = 0` when the width ratio is chosen, and the full height with `y1 = 0` otherwise |
| Compositor.PlaceCentred | slideshow/src/sshow.c:56-59 | the margins on the two sides of the box differ by at most one pixel, in each direction |
| Compositor.SrcIndex | slideshow/src/sshow.c:67-68 | the nearest-neighbour source index of every destination row or column of the box lies inside the image |
| Compositor.SampleInside | slideshow/src/sshow.c:76 | for a destination offset inside the box, the scale is positive and `d * den / num < n` |
| Compositor.SpanPixels | slideshow/src/sshow.c:75-78 | pixel `x` of a sampled row span is source pixel `SrcIndex(x)` |
| Compositor.LineAt | slideshow/src/sshow.c:71-78 | byte `k` of a drawn row: zero in the left margin, the sampled span inside the box, zero from `x2` to where the right-margin memset ends, and the old byte after that |
| Compositor.LineShown | slideshow/src/sshow.c:71-78 | a drawn row has a zero left margin and the sampled source pixel at every `x` of the box; it is zero up to the end of the right-margin memset and unchanged beyond it |
| Compositor.MarginsRows | slideshow/src/sshow.c:61-64 | after the two band memsets, rows above `y1` and from `y2` on are all zero, and the rows of the box are unchanged |
| Compositor.MarginsTail | slideshow/src/sshow.c:62-64 | the band memsets leave every byte past the last row untouched |
| Compositor.DrawnRowAt | slideshow/src/sshow.c:66-79 | after the first `n` rows of the loop, each of those rows is drawn over the cleared row and every other row is unchanged |
| Compositor.DrawnTail | slideshow/src/sshow.c:66-79 | the row loop leaves every byte past the last row untouched |
| Compositor.ScaledShape | slideshow/src/sshow.c:61-79 | the frame scale_image leaves: every row outside the box is zero, padding included; every row of the box shows the sampled source row (LineShown); the bytes after the frame are untouched |
| Compositor.RightMarginCleared | slideshow/src/sshow.c:73 | with the byte offset `4 * dst_x2`, the whole right margin of every row of the box is zero |
| Compositor.RightMarginMissed | slideshow/src/sshow.c:73 | with the offset as written (`dst_x2` bytes), whenever `4 * fbW <= 7 * dst_x2` the right margin of every row of the box keeps the bytes of the previous frame |
| Compositor.PlaceExample | slideshow/src/sshow.c:50-59 | a 4 x 2 frame with a 1 x 1 image has the box at pixels 1..2 and a right margin at pixel 3, and it meets RightMarginMissed's condition |
| Compositor.CopiedShape | slideshow/src/sshow.c:35-39 | after copying `n` rows, each row `y < n` starts with image row `y`; every other byte of the frame, row padding included, is unchanged |
| Compositor.CopyFastPath | slideshow/src/sshow.c:32-33 | when the frame stride equals the image stride, the single `memcpy` of `height * stride` bytes yields the same frame as the row loop |
| Compositor.CopiedNext | slideshow/src/sshow.c:36-38 | copying row `y` splices image row `y` into frame row `y` and changes nothing else |
| Compositor.CopyRow | slideshow/src/sshow.c:36-38 | one iteration of copy_image's loop advances the frame from `y` copied rows to `y + 1` |
| Compositor.CopyRows | slideshow/src/sshow.c:35-39 | copy_image's row loop leaves CopiedFrame of the old frame |
| Compositor.CopyImage | slideshow/src/sshow.c:29-41 | on either path, the frame becomes CopiedFrame of its old bytes: every image row copied into its frame row, the rest untouched |
| Compositor.ClearOutside | slideshow/src/sshow.c:61-64 | the band memsets turn the frame into `Margins` of the old frame |
| Compositor.ClearMargins | slideshow/src/sshow.c:72-73 | the two margin memsets of a row: zeros at the start of the row, and zeros from byte `rightAt` |
| Compositor.DrawSpan | slideshow/src/sshow.c:75-78 | the pixel loop writes the sampled span at the box's first byte and nothing else |
| Compositor.PutSample | slideshow/src/sshow.c:76-77 | one pixel of the loop extends the written span by one sampled pixel |
| Compositor.LineSpliced | slideshow/src/sshow.c:71-78 | the margin memsets followed by the pixel loop produce the drawn row `Line` spliced into the frame |
| Compositor.DrawLine | slideshow/src/sshow.c:69-78 | the body of the row loop replaces frame row `y` by `Line` of its old bytes |
| Compositor.DrawRow | slideshow/src/sshow.c:67-78 | one iteration advances the frame from `k` drawn rows to `k + 1` |
| Compositor.DrawnNext | slideshow/src/sshow.c:67-78 | splicing the drawn row `k` into the frame after `k` rows is the frame after `k + 1` rows |
| Compositor.DrawRows | slideshow/src/sshow.c:66-79 | the row loop leaves `RowsDrawn` of the cleared frame, all `dst_h` rows drawn |
| Compositor.DrawScaled | slideshow/src/sshow.c:61-79 | the band memsets and the row loop together leave ScaledFrame of the old frame |
| Compositor.ScaleImage | slideshow/src/sshow.c:48-80 | scale_image as written: the frame becomes ScaledFrame with the right-margin memset at byte offset `dst_x2` |
| Compositor.ScaleImageCleared | slideshow/src/sshow.c:48-80 | scale_image with the right-margin offset `4 * dst_x2`: the frame becomes ScaledFrame with the whole right margin cleared (RightMarginCleared) |
| ImgList.Random.Rand | slideshow/src/imglist.c:106 | each `rand()` returns the next value of the input sequence |
| ImgList.ShufflePermutes | slideshow/src/imglist.c:103-113 | whatever `rand()` returns, the shuffle only rearranges the entries (a permutation), tombstones included |
| ImgList.ShuffleStep | slideshow/src/imglist.c:105-111 | each step of the shuffle keeps the multiset of entries |
| ImgList.SwapPermutes | slideshow/src/imglist.c:107-111 | a swap keeps the multiset of entries |
| ImgList.LiveCountTombstones | slideshow/src/imglist.c:159 | live entries plus tombstones make up the whole array |
| ImgList.LiveCountPermuted | slideshow/src/imglist.c:156 | a reshuffle keeps the number of live entries |
| ImgList.TombstoneDropsOne | slideshow/src/imglist.c:167-168 | turning a live slot into a tombstone lowers the live count by exactly one |
| ImgList.NoLiveAllTombstones | slideshow/src/imglist.c:159 | no live entry if and only if every slot is a tombstone |
| ImgList.AddStepRoom | slideshow/src/imglist.c:31-39 | growing when `current + 1 >= size` keeps a free slot for the store at `current` |
| ImgList.GatherKeepsOffered | slideshow/src/imglist.c:41-46 | the list holds only offered paths, each at most as often as offered, and every stored entry is live |
| ImgList.GatherAll | slideshow/src/imglist.c:26-47 | when every allocation succeeds, the list is exactly the offered paths, in order |
| ImgList.Offered | slideshow/src/imglist.c:41-44 | entry `k` of the offered list is the path of attempt `k` |
| ImgList.Scan | slideshow/src/imglist.c:152-162 | the do-while stops at an index inside the array, on a live slot or back on the old cursor |
| ImgList.ScanPermutes | slideshow/src/imglist.c:155-158 | the reshuffles of the do-while only permute the entries: the array it ends on is a permutation of the one it started on |
| ImgList.ScanPath | slideshow/src/imglist.c:152-162 | every slot the do-while passes over is a tombstone of the array it is scanning at the time, and it wraps at most once. Either it stops later in the same array, with no `rand()` drawn and only tombstones between; or every slot after the start is a tombstone, the array is reshuffled with `size` draws, and every slot of the reshuffled array before the stop is a tombstone. It never wraps when a live slot or the old cursor lies ahead before the end |
| ImgList.ScanFindsNextLive | slideshow/src/imglist.c:154-159 | when a live slot lies after the cursor with only tombstones between, the loop stops on that slot and neither reshuffles nor draws from `rand()` |
| ImgList.NextKeepsLive | slideshow/src/imglist.c:150-163 | imglist_next keeps the number of live entries |
| ImgList.SkipDropsOne | slideshow/src/imglist.c:165-170 | imglist_skip on a live slot leaves one live entry fewer |
| ImgList.AllTombstonesYieldNull | slideshow/src/imglist.c:154-162 | when every entry is a tombstone, imglist_next comes back to the old cursor and returns NULL |
| ImgList.NullDespiteLive | slideshow/src/imglist.c:154-159 | NULL does not mean the list is empty: for `[a, NULL]` with cursor 0 and `rand()` always 1, the reshuffle moves the tombstone onto the cursor and the loop stops on it |
| ImgList.ScanOn | slideshow/src/imglist.c:155-159 | a step past a tombstone leaves the loop's outcome unchanged |
| ImgList.ScanWraps | slideshow/src/imglist.c:155-158 | passing the end reshuffles the array and restarts at slot 0 without changing the outcome |
| ImgList.ScanStop | slideshow/src/imglist.c:159 | the loop stops on the first slot that is live or is the old cursor |
| ImgList.List.constructor | slideshow/src/imglist.c:117 | the zeroed context: empty array, size and cursor 0 |
| ImgList.List.AddFile | slideshow/src/imglist.c:26-47 | add_file: the gathered entries and capacity after the call are AddStep of those before |
| ImgList.List.AddAll | slideshow/src/imglist.c:123 | adding every file in turn builds Gather of the attempts |
| ImgList.List.Shuffle | slideshow/src/imglist.c:103-113 | the array becomes Shuffled of the old entries (a permutation of them), `size` values are drawn, and slots past `size` are untouched |
| ImgList.List.Seal | slideshow/src/imglist.c:131-136 | `size` becomes the number of files, the entries are shuffled, the cursor rests at `size` |
| ImgList.List.Init | slideshow/src/imglist.c:115-137 | no list exactly when no file could be added; otherwise a fresh list of the gathered paths, shuffled, with the cursor at `size` |
| ImgList.List.Advance | slideshow/src/imglist.c:155-158 | `++index`, and past the end a reshuffle and index 0 |
| ImgList.List.Turn | slideshow/src/imglist.c:155-159 | one iteration of the do-while: it reaches the loop's goal, or a tombstone from which the loop goes on |
| ImgList.List.Seek | slideshow/src/imglist.c:154-159 | the do-while ends at the cursor Scan predicts |
| ImgList.List.Next | slideshow/src/imglist.c:150-163 | imglist_next: the array, the cursor and the draws after the call are Scan of those before, and the result is the slot at the new cursor |
| ImgList.List.Skip | slideshow/src/imglist.c:165-170 | imglist_skip: the current slot becomes a tombstone, then imglist_next runs from there |
| Display.ProbeOrder | slideshow/src/display.c:185-206 | the probe keeps card0 when it opens and has the dumb-buffer capability, else card1 under the same test, else nothing |
| Display.FirstEncoderIsFirst | slideshow/src/display.c:150-164 | no encoder is chosen exactly when every encoder lookup fails; otherwise the chosen one is the first whose lookup succeeds |
| Display.FirstConnectorIsFirst | slideshow/src/display.c:138-166 | no connector is chosen exactly when none is usable (present, connected, with a mode and an encoder); otherwise the first usable one is chosen |
| Display.FrameBuffer.constructor | slideshow/src/display.c:119 | a zeroed buffer description |
| Display.Display.constructor | slideshow/src/display.c:179 | the zeroed display context holds nothing |
| Display.Display.FreeFb | slideshow/src/display.c:38-52 | free_fb gives back exactly what the fields record: the frame buffer object, then the dumb buffer, then the mapping |
| Display.Display.CreateFb | slideshow/src/display.c:61-121 | success exactly when all four kernel steps succeed, and then the fields hold the replies and the buffer is drawable; on failure, what was taken is given back, the last first, and the description is zeroed |
| Display.Display.Abandon | slideshow/src/display.c:117-120 | the failure path of create_fb: free_fb, then the description zeroed |
| Display.Display.GetConnector | slideshow/src/display.c:129-172 | found exactly when the resources are readable and some connector is usable; then the mode, CRTC and connector ids are those of the first usable one; otherwise the ids are unchanged |
| Display.Display.OpenCard | slideshow/src/display.c:185-211 | the descriptor kept is the probe's choice, or `-1`; every card opened and rejected is closed again |
| Display.Display.CreateBuffers | slideshow/src/display.c:218-222 | both buffers are created at the mode's size, or the call fails, exactly when either creation fails |
| Display.Display.Start | slideshow/src/display.c:218-236 | success exactly when both buffers are created and the mode set succeeds; then `cfb` is `fb[0]`, the buffer the mode was set on (the last log event is that mode set), and the old CRTC is saved; on failure nothing is held |
| Display.Display.Init | slideshow/src/display.c:174-237 | display_init succeeds exactly when a card qualifies, a connector is usable, both buffers are created and the mode set succeeds; then `cfb` is `fb[0]` and the last log event is the mode set on it; a failed init holds nothing |
| Display.Display.Free | slideshow/src/display.c:239-256 | display_free gives everything back in order: the saved CRTC (after restoring it), `fb[0]`, `fb[1]`, the card; afterwards nothing is held |
| Display.Display.RestoreCrtc | slideshow/src/display.c:241-246 | the saved CRTC, if any, is restored, then released |
| Display.Display.CloseCard | slideshow/src/display.c:251-253 | the card is closed when it is open |
| Display.Display.Draw | slideshow/src/display.c:258-261 | display_draw returns the buffer `cfb` points to and changes nothing: `fb[0]`, the buffer on screen, right after display_init; the buffer not just flipped to after each commit |
| Display.Display.Commit | slideshow/src/display.c:263-277 | display_commit flips to the drawn buffer, whatever the flip returns, and the other buffer becomes the target |
| SlideShow.LoadPath | slideshow/src/sshow.c:93-96 | image_load gives an image exactly when the file decodes and the pixel allocation succeeds; the image is the decode laid out as XRGB rows |
| SlideShow.NextImage | slideshow/src/sshow.c:87-102 | an image is returned only for the entry the cursor rests on, which the loader accepted; no image only when the list returned NULL; each rejected file costs exactly one live entry, so the loop ends |
| SlideShow.Paint | slideshow/src/sshow.c:130-134 | copy_image when the image has the frame's size, scale_image (with the corrected right margin) otherwise |
| SlideShow.ShowFrame | slideshow/src/sshow.c:129-135 | the buffer `cfb` points to gets the image painted over it (Painted), exactly one page flip of it is logged, the other buffer becomes the target and its bytes are unchanged |
| SlideShow.ShowNext | slideshow/src/sshow.c:124-137 | one turn of slide_show. With no image left: the list's slot is NULL, and `cfb`, the log and both buffers' bytes are unchanged. Otherwise: the image is the one loaded from the entry the cursor rests on; it is Painted into the buffer `cfb` pointed to; the log gains exactly `PageFlip` of that buffer; `cfb` moves to the other buffer, whose bytes are unchanged |
| SlideShow.Run | slideshow/src/sshow.c:120-142 | slide_show: frames are shown until the stop flag is seen or the images run out; it returns true exactly when stopped by the flag, and on false the list's slot is NULL. `cfb` changes buffer once per frame shown, and the log gains exactly `FlipLog`: one flip per frame, each to the buffer that frame drew into, with that frame's flip outcome |
| SlideShow.FlipLogAt | slideshow/src/sshow.c:129-135 | frame `k`'s flip goes to the buffer `cfb` pointed to at the start for even `k` and to the other buffer for odd `k`, with outcome `flips(k)` |

## Left out

- JPEG decoding: libjpeg is an input (`Jpeg` per path). What the model keeps is what the loader does with libjpeg's output. Opening the file, reading the header and finishing the decode are not modelled.
- Zero-size images: libjpeg never reports a width or height of zero, so `Jpeg.WellFormed` excludes them, and `scale_image`'s division by `img->width` is never reached with zero.
- Float arithmetic in `scale_image`: the scale is the exact rational `num/den`, and each `(size_t)` cast is a floor division. A `float` rounding that lands one pixel off is not modelled.
- `add_dir` (imglist.c:54-97), the directory walk: files are given in order as `Attempt`s, each with the outcome of its two allocations. The `realloc` and `malloc` failures are inputs.
- The distribution of `rand()`: the model takes any sequence of naturals.
- `imglist_free`, and the `free(img)` in slide_show: heap release is not modelled, since Dafny's memory is managed.
- `main.c`, option parsing and `sleep(PHOTO_DELAY)`: outside the core, and time is not modelled.
- Signals: the asynchronous handler that sets `stop_slideshow` is modelled as the number of frames `stopAt` before the flag is seen.
- The race between the handler and the final `return stop_slideshow` is not modelled. A signal that arrives after the loop ends on "no more images" would make the source return true.
- The DRM ioctls, `open`, `mmap` and `close`: each is replaced by its reply. What the kernel promises about those replies (non-zero handles, a pitch of at least four bytes per pixel, distinct handles) is stated as `KernelReplies` and `Distinct`.
- Error messages printed to stderr: no output is modelled.
- `Image.Load`: models the image as a byte array of packed XRGB rows. The `struct image` header that shares one allocation with the pixels is not modelled.
- SlideShow.Paint: draws with the right-margin offset corrected (see Findings). The as-written drawing is `Compositor.ScaleImage`.
- SlideShow.ShowFrame: paints through `SlideShow.Paint`, so with the corrected right margin.
- SlideShow.ShowNext: paints through `SlideShow.Paint`, so with the corrected right margin.
- SlideShow.Run: shows every frame through `SlideShow.ShowNext`, so with the corrected right margin.
- SlideShow.ShowNext, SlideShow.Run: they require the list's array and the two frame buffers to be separate objects (`Apart`). In the source they are separate heap allocations, which Dafny cannot infer for arrays of different element types.
- `Jpeg.WellFormed` bounds the component count by 4. With `JCS_RGB` (image.c:57) libjpeg outputs 1 or 3 components, and the widening handles exactly those two. A larger count would overflow a row of `4 * width` bytes in `jpeg_read_scanlines`, and the bound keeps the model away from that case.

## Findings

| source | as written | input that shows it | evidently intended | confidence | as-written member | corrected member |
|---|---|---|---|---|---|---|
| slideshow/src/sshow.c:73 | the right-margin `memset` starts at `buf_line + dst_x2`, a BYTE offset of `dst_x2`, though pixels are 4 bytes wide | a 4 x 2 frame showing a 1 x 1 image: `dst_x1 = 1`, `dst_x2 = 3`, and the memset clears bytes 3..6 of the row, which lie in the left margin and the box, so pixel 3 (bytes 12..15, the right margin) keeps the previous frame's colour | the memset starts at byte `4 * dst_x2` of the row, so the whole right margin is cleared | high; not executed | Compositor.ScaleImage, with Compositor.RightMarginMissed and Compositor.PlaceExample | Compositor.ScaleImageCleared, with Compositor.RightMarginCleared |
