# Halftone video converter — verified model of the frame sampler

The converter shows an uploaded video as a live halftone. On every timer tick
`updateHalftoneData` draws the current video frame onto a hidden canvas and
reads back its RGBA pixels. It then samples every `sampleResolution`-th pixel
in both directions, rows first. Each sample's BT.601 luminance
(0.299 R + 0.587 G + 0.114 B) becomes a black dot of radius
`(1 - luminance / 255) * dotSize`. The list of dots replaces the overlay
wholesale. A tick only does this while the video is mounted, playing and not
ended.

The model has three modules:

- `Tone` (`tone.dfy`): the per-pixel expressions. `Luminance` and `Radius`
  are functions over exact reals. `Byte` is the 0..255 channel type of the
  canvas pixel buffer.
- `Sampler` (`sampler.dfy`): the nested sampling loop. `Row` lists the
  circles of one pixel row from a column onwards, `Rows` the rows from a
  given row downwards, and `Halftone` is `Rows` from row 0. `SampleFrame` is
  the loop as the source writes it. Two `while` loops step `y` and `x` by
  `step`, read R, G and B at byte offset `(y * width + x) * 4`, and append
  circles. It is proved to return exactly `Halftone`. Lemmas proved by
  induction over `Row` and `Rows` give the count, bounds, ordering,
  coverage, radius and alpha properties.
- `App` (`app.dfy`): class `HalftoneApp` holds the settings, the frame
  dimensions and the published circles. `UpdateHalftoneData` and `Tick` are
  the state transitions. The video element, the canvas, the 2D context and
  the pixels read back are parameters, because the browser supplies them.

A tick checks only that the video ref is set and that the video is neither
paused nor ended (src/App.tsx:95-99). It does not look at the element's
`readyState`, and the model follows the code.

Since `SampleFrame` returns a function of its inputs, two ticks over the same
frame and settings publish equal circle lists.

## Model

| member | source | states |
|---|---|---|
| `Tone.Luminance` | src/App.tsx:64 | for 8-bit channels the BT.601 luminance lies in [0, 255]; it is 0 exactly for a black pixel and 255 exactly for a white one |
| `Tone.Radius` | src/App.tsx:66 | the radius is `dotSize` at luminance 0, 0 at luminance 255, and 0 whenever `dotSize` is 0 |
| `Tone.RadiusBounds` | src/App.tsx:66 | for a luminance in [0, 255] and a non-negative dot size, 0 <= radius <= dotSize (the "maximum dot radius" of line 13) |
| `Tone.RadiusMonotone` | src/App.tsx:65-66 | the radius never increases with luminance; with a positive dot size, a lower luminance gives a strictly larger dot and conversely |
| `Tone.DarkerPixelLargerDot` | src/App.tsx:60-66 | a pixel no brighter than another in each of R, G and B gets a dot at least as large |
| `Sampler.CeilDiv` | src/App.tsx:57-58 | the number of grid positions 0, step, 2 * step, ... below n is 0 exactly when n is 0 |
| `Sampler.CeilDivIsCeiling` | src/App.tsx:57-58 | that number is the ceiling of n / step: c * step >= n and (c - 1) * step < n, so a loop `i < n; i += step` runs c times |
| `Sampler.PixelInBounds` | src/App.tsx:59-62 | for 0 <= x < width and 0 <= y < height, every byte of the pixel at offset `(y * width + x) * 4` lies inside a buffer of 4 * width * height bytes |
| `Sampler.RowLength` | src/App.tsx:58 | the inner loop from column x appends ceil((width - x) / step) circles, none when x >= width |
| `Sampler.RowsLength` | src/App.tsx:57-58 | the outer loop from row y appends ceil((height - y) / step) rows of ceil(width / step) circles |
| `Sampler.Halftone` | src/App.tsx:54-69 | the halftone has exactly ceil(width / step) * ceil(height / step) circles, and it is empty exactly when width or height is 0 |
| `Sampler.SampleFrame` | src/App.tsx:54-69 | the nested loops terminate, every buffer read is in bounds, and the list they build equals `Halftone` of the buffer |
| `Sampler.HalftoneOnGrid` | src/App.tsx:57-67 | every circle has 0 <= x < width and 0 <= y < height, both multiples of the step, and carries the radius of the pixel under its own centre |
| `Sampler.HalftoneRowMajor` | src/App.tsx:57-58 | circles are strictly ordered by y and then by x, so no grid point is emitted twice |
| `Sampler.HalftoneCoversGrid` | src/App.tsx:57-59 | every in-frame pixel whose coordinates are multiples of the step has its circle in the halftone |
| `Sampler.HalftoneIgnoresAlpha` | src/App.tsx:59-64 | the alpha byte at offset + 3 is never read: buffers that differ only in alpha bytes give the same halftone |
| `Sampler.HalftoneBlackFrame` | src/App.tsx:60-66 | a frame whose R, G and B bytes are all 0 gives circles of radius `dotSize` |
| `Sampler.HalftoneWhiteFrame` | src/App.tsx:60-66 | a frame whose R, G and B bytes are all 255 gives circles of radius 0 |
| `Sampler.HalftoneRadii` | src/App.tsx:66 | with a non-negative dot size every circle's radius lies in [0, dotSize] |
| `App.HalftoneApp.constructor` | src/App.tsx:13-23 | initial settings are dot size 4, step 10, 8 ticks per second, a 640 x 360 frame and no circles |
| `App.HalftoneApp.SetDotSize` | src/App.tsx:121-127 | the dot-size slider sets a value in 1..50 and leaves the circles for the next tick |
| `App.HalftoneApp.SetSampleResolution` | src/App.tsx:133-139 | the sample-resolution slider sets a value in 2..50, so the step is never below 2 |
| `App.HalftoneApp.SetFrameRate` | src/App.tsx:145-151 | the frame-rate slider sets a value in 1..60 |
| `App.HalftoneApp.UpdateHalftoneData` | src/App.tsx:39-71 | with both refs set and a 2D context, the published circles become exactly the halftone of the frame at the current settings; otherwise they are unchanged; settings stay in range and every circle keeps 0 <= r <= 50 |
| `App.HalftoneApp.Tick` | src/App.tsx:95-101 | the circles are recomputed only when the video is mounted, not paused and not ended (and the canvas and context exist); in every other case they are left as they were |

## Left out

- File upload and `URL.createObjectURL` (src/App.tsx:30-36) are browser I/O.
- The `loadedmetadata` listener (src/App.tsx:74-90) is left out. It sets the frame dimensions, sets `video.loop` and calls `video.play()`. The dimensions are fields of `HalftoneApp` that no modelled method changes.
- The `setInterval` timer, its period `1000 / frameRate` and its re-registration when a setting changes (src/App.tsx:93-107) are host scheduling. `Tick` models one firing of the timer.
- `canvas.getContext`, resizing the canvas, `drawImage` and `getImageData` (src/App.tsx:43-53) are canvas calls. Their result enters as the `frame` array of 4 * width * height bytes. A context that cannot be obtained enters as `contextAvailable == false`. The model does not cover a browser refusing `getImageData` on a zero-sized canvas. On a zero-sized canvas `getImageData` throws an `IndexSizeError` and the previous circles stay, whereas the model, for a mounted video with canvas and context, publishes the empty halftone `[]`.
- Luminance and radius are exact reals. IEEE-754 rounding of the JavaScript expressions is not modelled, and nothing is claimed about it.
- JSX and SVG rendering of the circles (src/App.tsx:109-180) are user interface.
- `App.HalftoneApp.SetDotSize`, `SetSampleResolution`, `SetFrameRate`: the slider's `min` and `max` are taken as the caller's guarantee. The model does not cover a value outside the range arriving through `Number(e.target.value)`.
