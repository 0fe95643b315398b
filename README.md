# GIF frame compositor

This project models the frame compositor of a small browser GIF player. The
compositor receives a decoded GIF as a stream of block callbacks:

- the logical screen descriptor (`onHeader`);
- a Graphic Control Extension before each image (`onGCE`);
- image descriptors with their colour indices (`onImg`);
- the trailer (`onEOF`).

It draws each image onto one persistent RGBA canvas and takes a full-canvas
copy of the canvas as each frame. It follows the disposal methods of
section 23 (Graphic Control Extension) of the GIF89a specification:

- 0 and 1: leave the canvas alone;
- 2: restore to background, done here as clearing to transparent;
- 3: restore to previous.

It also honours the transparency index.

The repository has two variants, and they are modelled side by side:

- `index.js`, the batch parser. It collects the frames in `_frames` and
  resolves the `parse` promise with the list (module `BatchCompositor`).
- `src/index.js`, the event parser. It emits `header`, then one `frame`
  event per frame tagged with the running counter `_currIdx`, then `eof`
  (module `StreamCompositor`).

Shared modules:

- `Raster` models the canvas as a flat row-major RGBA byte array with
  `clearRect`, `getImageData` and `putImageData`. Proved: the
  "only this rectangle changes" laws, and the put/get round trips.
- `Gif` holds the block and frame datatypes, the error outcomes, and the
  counting of frames a block stream produces.
- `Compose` models the choice of colour table, the per-pixel loop over the
  image indices, and the blit. Both variants run the same routine.

Each parser is a `class GifParser` whose fields are the JavaScript fields:

- `_header`, the canvas, `_frame`
- `_disposalMethod`, `_lastDisposalMethod`, `_transparency`, `_delay`,
  `_lastImg`
- `_disposalRestoreFromIdx` and `_frames` (batch variant)
- `_currIdx` and the emitted events (event variant)

Each callback is a method. Its `ensures` gives the new state in terms of
the functions `Dispose`, `Blit`, `Cleared`, `Crop` and `Paste`. Lemmas
prove the pixel-level meaning of those functions.

Where the model departs from the behaviour one would read into the comments
of the source, it follows the code:

- **Batch variant, restore to previous (`index.js:61-73`).** The anchor
  `_disposalRestoreFromIdx` starts `undefined` and is never set to `null`.
  The guard `!== null` therefore holds when no anchor exists. The lookup
  `_frames[undefined].data` then throws.
  - The comment's fallback (clear the last rectangle, `index.js:69`) cannot
    be reached.
  - The model returns the error `NoRestoreAnchor` instead, and
    `NoAnchorScenario` shows it for a first frame with disposal 3.
  - The comment at `index.js:64-65` says the missing anchor falls back to
    clearing. The model does not.
- **Event variant, restore to previous (`src/index.js:78-84`).** The guard
  tests `this._disposalRestore`, which nothing assigns. So disposal 3
  always takes the `clearRect` branch and behaves exactly like disposal 2.
  - The assignment from `this._lastFrame` at `src/index.js:84` has no
    effect on any pixel.
  - `StreamCompositor.DisposeAgreesWithBatch` states where the two variants
    agree and where they differ.
- **Colour lookups have no fallback (`index.js:42`, `index.js:92-94`).**
  `ct[pixel][k]` throws when no table exists. When the index is past the
  end of the table, it throws at the first drawn pixel whose index is past
  the end. These are the
  errors `MissingColorTable` and `IndexOutOfRange`.
  - Only drawn pixels are looked up, so a transparent pixel is never an
    error.
  - When an error occurs the canvas keeps its pre-blit contents. The image
    buffer is written locally and never put back.

Integers are unbounded. Channel values are `byte` (0..255), and the
disposal method is a `nat`. A value 4..7 (reserved) behaves like 0 and 1.
Undefined and `null` transparency, and an undefined delay, are `None`.

## Model

| member | source | states |
|---|---|---|
| Raster.Blank | index.js:105-107 | a new canvas of width x height pixels has exactly 4·width·height bytes |
| Raster.OffsetInRaster | index.js:90 | byte c of pixel (x, y) lies inside the raster, and decomposing its offset gives back x, y and c |
| Raster.Decompose | index.js:90 | every byte of the raster is channel Chan of pixel (Col, Row), with each component in range |
| Raster.ClearedAt | index.js:79 | after clearRect(r) every channel of a pixel inside r is 0, and every pixel outside r keeps its bytes |
| Raster.CropAt | index.js:86 | getImageData(r) holds at image pixel (x, y) the canvas pixel (left + x, top + y) |
| Raster.PasteAt | index.js:99 | putImageData(d) at r writes d's pixel (x - left, y - top) inside r and leaves every pixel outside r unchanged |
| Raster.PasteCrop | index.js:86-99 | putting back, unmodified, what getImageData returned leaves the canvas unchanged |
| Raster.CropPaste | index.js:99 | reading rectangle r back after putImageData(d) at r gives exactly d |
| Raster.CropWhole | index.js:112 | a whole-canvas getImageData is an exact copy of the canvas |
| Raster.PasteWhole | index.js:67 | putImageData of a whole-canvas frame at (0, 0) makes the canvas exactly that frame |
| Raster.ClearRect | index.js:79 | the canvas becomes its old contents with rectangle r cleared to (0, 0, 0, 0) |
| Raster.GetImageData | index.js:86 | returns a fresh buffer holding the bytes of rectangle r, row by row |
| Raster.PutImageData | index.js:99 | the canvas becomes its old contents with rectangle r overwritten by the image |
| Gif.HasImage | index.js:38 | true exactly when some image block occurs, i.e. when the drawing context has been created |
| Compose.TableChoice | index.js:42 | with a local table the blit is the same whatever the global table is, and uses the local one; without one it uses the global table; with neither, any drawn pixel makes the blit fail with MissingColorTable |
| Compose.InTableResolvable | index.js:92-94 | if every index has a table entry, every lookup succeeds whatever the transparency index |
| Compose.ColoredAt | index.js:89-97 | after the loop, byte 4i + c of the image buffer is channel c of ct[pixel i] (alpha 255) when pixel i is not the transparency index, and is unchanged otherwise |
| Compose.BlitPixel | index.js:86-99 | image pixel i lands at (left + i mod width, top + i div width); a drawn pixel takes its table colour with alpha 255, and a transparent one keeps the canvas pixel |
| Compose.BlitOutside | index.js:86-99 | a successful blit leaves every pixel outside the image rectangle unchanged |
| Compose.BlitFails | index.js:91-94 | the blit fails exactly when some drawn pixel has no table or no table entry; the error is MissingColorTable without a table and IndexOutOfRange otherwise |
| Compose.BlitAllTransparent | index.js:91 | an image whose every index is the transparency index leaves the canvas unchanged |
| Compose.BlitWholeCanvas | index.js:86-99 | an opaque whole-canvas image makes canvas pixel (x, y) the table colour of index y·width + x, whatever the canvas held |
| Compose.ApplyColorTable | index.js:89-97 | the loop succeeds exactly when every drawn pixel resolves and fails with the lookup error otherwise; on success the buffer is the coloured image |
| Compose.DrawImage | index.js:86-99 | the canvas becomes the blit of the image; on a failed lookup the error is returned and the canvas is unchanged |
| BatchCompositor.DisposalEffect | index.js:61-81 | first image: no change; disposal 2: exactly the last image's rectangle cleared; disposal 3: the anchor frame's data, or NoRestoreAnchor without an anchor; any other method: no change |
| BatchCompositor.GifParser.constructor | index.js:4-7 | no header, no context, no frames, every field undefined |
| BatchCompositor.GifParser.OnHeader | index.js:103-108 | stores the header and makes a blank width x height canvas |
| BatchCompositor.GifParser.PushFrame | index.js:109-115 | no-op before the first image; otherwise appends exactly one frame (a full copy of the canvas and the current delay), earlier frames unchanged |
| BatchCompositor.GifParser.OnGce | index.js:116-124 | flushes with the old delay, then last disposal := old disposal, transparency := index if given else none, delay and disposal from the block |
| BatchCompositor.GifParser.OnImg | index.js:37-102 | the anchor becomes currIdx - 1 unless the last disposal was 3; the canvas becomes the blit, with the active table and transparency, over the disposed canvas; each error is returned with the canvas as it was left |
| BatchCompositor.GifParser.OnEof | index.js:33-36 | one final flush, then resolves with exactly the accumulated frame list |
| BatchCompositor.GifParser.OnBlock | index.js:20-25 | a control block has exactly onGCE's effect (flush, disposal rotation, transparency, delay) and never fails; an image block has exactly onImg's effect (anchor, disposal, blit, errors) and succeeds when it is drawable and the last disposal is not 3 |
| BatchCompositor.Parse | index.js:20-36 | a stream whose images all have a table covering their indices and whose control blocks never ask for restore to previous completes; a decode that completes resolves with one frame per control block after the first image, plus one at the trailer if any image was drawn; each frame is a whole canvas |
| BatchCompositor.NoAnchorScenario | index.js:66-67 | a first frame with disposal 3 makes the second image's decode fail with NoRestoreAnchor rather than clear |
| StreamCompositor.DisposalEffect | src/index.js:73-93 | first image: no change; disposal 2 and 3 alike: exactly the last image's rectangle cleared; any other method: no change |
| StreamCompositor.DisposeAgreesWithBatch | src/index.js:74-85 | with no frame yet, or with a last disposal other than 3, the disposal step agrees with the batch variant; under disposal 3 with an anchor, the batch variant restores the anchor frame where this one clears the last rectangle |
| StreamCompositor.GifParser.constructor | src/index.js:5-9 | `_currIdx` is 0 and nothing has been emitted |
| StreamCompositor.GifParser.OnHeader | src/index.js:115-121 | stores the header, makes a blank width x height canvas and emits exactly one header event |
| StreamCompositor.GifParser.PushFrame | src/index.js:122-129 | no-op before the first image; otherwise emits one frame (a full canvas copy and the delay) tagged with `_currIdx` and increments `_currIdx` by exactly 1, so the emitted indices run 0, 1, 2, … without gaps |
| StreamCompositor.GifParser.OnGce | src/index.js:130-138 | flushes, then last disposal := old disposal, transparency := index if given else none, delay and disposal from the block |
| StreamCompositor.GifParser.OnImg | src/index.js:49-114 | the canvas becomes the blit, with the active table and transparency, over the disposed canvas, where disposal 3 clears like disposal 2; a failed lookup is returned with the disposed canvas |
| StreamCompositor.GifParser.OnEof | src/index.js:45-48 | one final flush, then exactly one eof event |
| StreamCompositor.GifParser.OnBlock | src/index.js:37-42 | a control block has exactly onGCE's effect (flush with its frame event, disposal rotation, transparency, delay) and never fails; an image block has exactly onImg's effect, emits nothing, and succeeds when it is drawable |
| StreamCompositor.Parse | src/index.js:34-48 | the header event comes first; frame events follow in positions 1, 2, … with indices 0, 1, …; a completed decode ends with eof after one frame per control block following an image, plus the trailer's; a failed one emits no eof; a stream whose images all have a table covering their indices completes |

## Left out

- Loading over XMLHttpRequest, the Promise plumbing and the `onload`/`onerror` handlers (`index.js:9-31`, `src/index.js:13-44`). These are network I/O and asynchrony. The block stream is a parameter of `Parse`.
- The decoder itself (`parseGIF`, `Stream`, LZW decompression, de-interlacing) and `cancel`/`cancelGIF`. This is foreign code that is not part of this model. That an image carries one index per pixel is the decoder's output, taken as a precondition (`Fits`).
- The `EventEmitter` wiring and `on` (`src/index.js:2`, `src/index.js:8-12`). The emitted events are the sequence `events`, with no listeners.
- DOM canvas creation and `getContext`. The canvas is an explicit byte array. Premultiplied-alpha rounding is not modelled. Neither is the silent clipping that getImageData and putImageData apply to a rectangle leaving the canvas (`index.js:86`, `index.js:99`): the model requires instead that every image rectangle lies on the canvas (`Fits`). The `IndexSizeError` that `getImageData` raises for a zero-sized rectangle is not modelled either: a zero-sized image is drawn as a no-op.
- `_lastImg` is stored as the image's rectangle only, since nothing else of it is read.
- webpack.config.js is build configuration, with no logic.
- BatchCompositor.GifParser.OnHeader: requires that no header has been seen. The decoder sends the logical screen descriptor once, so a second header (which would replace the canvas) is not modelled.
- StreamCompositor.GifParser.OnHeader: requires that no header has been seen, for the same reason.
- BatchCompositor.GifParser.OnImg: after an error the parser state is not promised `Valid()`. In the source the TypeError abandons the decode, so no later callback runs.
- StreamCompositor.GifParser.OnImg: after an error the parser state is not promised `Valid()`, for the same reason.
- StreamCompositor.GifParser.OnEof: does not promise `Valid()` afterwards, because the eof event ends the emitted stream and no callback follows it.
- BatchCompositor.Parse: states the number and size of the frames, not their pixels. Completion is promised only for streams without restore to previous; a stream that uses disposal 3 after a frame with another method also completes in the source, but no whole-stream condition for that is stated. The pixels are stated callback by callback in the contracts of `OnGce`, `OnImg` and `OnEof`.
- StreamCompositor.Parse: states the shape and numbering of the emitted events, not the pixels of each frame. The pixels are stated callback by callback.
- Restore to previous across a chain of disposal-3 frames is not stated as a whole-stream property. The step it rests on is stated: `OnImg` keeps the anchor when the last disposal was 3 (`NextAnchor`), and `Dispose` then yields the anchor frame.
