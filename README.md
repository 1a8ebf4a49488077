# rustybrot in Dafny

A model of the core of rustybrot, a small Mandelbrot renderer, with the
properties its code promises proved about it.

The model covers four parts:

- **The escape-time kernel.** `get_escape_iterations` is modelled as an
  imperative loop. It uses the source's counter discipline, the source's orbit
  update (including the saved `temp_zr`) and the source's two exit tests. It is
  proved equal to `EscapeIterations`, which is the first escaping update or
  `loop_threshold + 1`.
- **The one-shot pipeline `_mandelbrot`.** It is modelled as pure sequence
  functions: a row-major cartesian product with descending columns, a pixel per
  point, and a flattening to r, g, b, a bytes. Its length and byte layout are
  proved.
- **The incremental renderer `MandelbrotState`.** It is modelled as a class:
  - a column-major canvas `pixels[x][y]` (a `seq<seq<Pixel>>` field, WIDTH x HEIGHT);
  - a cursor `pointer`;
  - `DrawNextFrame`, which walks up to PIXELS_PER_FRAME linear indices;
  - `Draw`, which copies the canvas into an RGBA frame buffer with the
    horizontal axis flipped.

  Each method is proved against a specification function (`Batch`, `Emit`).
  The lemmas about those functions give:
  - cursor monotonicity;
  - idempotence once the image is complete;
  - exact write sets;
  - completion after enough calls;
  - a one-to-one frame layout.
- **`Pixel`, `SET_PIXEL`, `to_slice` and `clone`.**

Floating point is not modelled as numbers. Every IEEE-754 operation the kernel
performs comes from an `Arith<F>` record of uninterpreted operations. That
record holds `+`, `-`, `*`, `/`, `sqrt`, `>`, the cast `n as f64` and the
literal `2.0`. The model therefore fixes which operations are applied, to what
and in which order. Every integer fact is proved for all floating-point
semantics.

The three colour channels of `my_colour_function` are an uninterpreted
`ChannelPolicy`. Its alpha is the constant 255.

Two behaviours of the code are modelled as written:

- **step_y.** `MandelbrotState::new` divides the *horizontal* extent by the
  height to get `step_y` (src/main.rs:59). `_mandelbrot` uses the vertical
  extent (src/mandelbrot.rs:20).
  - `RendererMatchesOneShot` shows this is the only difference between the two
    pixel maps.
  - `TopRowLeavesView` evaluates the program's own constants in exact
    arithmetic. The top row then lies at imaginary part 1.295, outside the view
    edge 1.2. With the vertical extent it would lie inside.
- **The last index of a batch is computed twice.** A batch that does not
  finish the image leaves `pointer` on the last index it already wrote, so the
  next call writes that index again. A non-final batch therefore advances the
  cursor by PIXELS_PER_FRAME - 1. The model follows the code: see `BatchCursor` and
  `RunFromStart`.

Files:

| file | module | contents |
|---|---|---|
| `util.dfy` | `Util` | `u8`/`u32` ranges, flattening, division facts |
| `pixel.dfy` | `Pixels` | src/pixel.rs |
| `mandelbrot.dfy` | `Mandelbrot` | src/mandelbrot.rs |
| `state.dfy` | `RenderState` | src/main.rs |

## Model

| member | source | states |
|---|---|---|
| Pixels.ToSlice | src/pixel.rs:16-18 | a pixel serialises to exactly four bytes |
| Pixels.FromToSlice | src/pixel.rs:16-18 | rebuilding a pixel from its r, g, b, a slice gives the same pixel |
| Pixels.ToFromSlice | src/pixel.rs:16-18 | every four-byte slice is the slice of the pixel rebuilt from it |
| Pixels.ToSliceInjective | src/pixel.rs:16-18 | two pixels have the same slice if and only if they are equal |
| Pixels.SetPixelSlice | src/pixel.rs:1-6 | SET_PIXEL serialises as [0, 0, 0, 255] |
| Pixels.Clone | src/pixel.rs:21-30 | a clone equals the original field by field |
| Mandelbrot.EscapeFrom | src/mandelbrot.rs:49-61 | searching from update k: the result lies in [k, loop_threshold + 1]; no update in [k, result) escapes; the result is the cap or escapes |
| Mandelbrot.EscapeIterations | src/mandelbrot.rs:48-61 | the count lies in [1, loop_threshold + 1]; no earlier update escapes; it is the cap or an escape |
| Mandelbrot.EscapeIterationsUnique | src/mandelbrot.rs:49-61 | those three facts determine the count uniquely |
| Mandelbrot.NeverEscapes | src/mandelbrot.rs:58-60 | if no update up to loop_threshold escapes, the count is exactly loop_threshold + 1 |
| Mandelbrot.FirstEscape | src/mandelbrot.rs:54-57 | if update k is the first to escape (k <= loop_threshold + 1), the count is k; k = 1 is the first update |
| Mandelbrot.GetEscapeIterations | src/mandelbrot.rs:39-62 | with loop_threshold < u32::MAX, the loop terminates and returns EscapeIterations. The orbit starts at c and zi uses the pre-update zr |
| Mandelbrot.Square | src/mandelbrot.rs:51-53 | definition, no contract: one orbit update, zr := zr*zr - zi*zi + cr and zi := 2*temp_zr*zi + ci with the pre-update zr; see GetEscapeIterations |
| Mandelbrot.OrbitAt | src/mandelbrot.rs:44-53 | definition, no contract: the orbit after n updates, starting at z = c; see GetEscapeIterations |
| Mandelbrot.Magnitude | src/mandelbrot.rs:54 | definition, no contract: sqrt(zr*zr + zi*zi); see EscapesAt |
| Mandelbrot.EscapesAt | src/mandelbrot.rs:54-55 | definition, no contract: the test abs > escape_threshold as f64 after update n; see EscapeIterations, FirstEscape |
| Mandelbrot.ChoosePixel | src/mandelbrot.rs:28-34 | definition, no contract: SET_PIXEL when the count exceeds loop_threshold, else the colour function; see PixelOfChoice |
| Mandelbrot.PixelOf | src/mandelbrot.rs:27-34 | definition, no contract: ChoosePixel of the escape count of a coordinate; see PixelOfChoice, ComputedPixelsOpaque |
| Mandelbrot.PixelOfChoice | src/mandelbrot.rs:28-34 | a pixel is SET_PIXEL when its count is loop_threshold + 1, else colour(count, escape_threshold) |
| Mandelbrot.MapCoordinate | src/mandelbrot.rs:23-26 | definition, no contract: x * step_x + lower_left.x, y * step_y + lower_left.y (also src/main.rs:80-83); see MandelbrotState.ComputePixel |
| Mandelbrot.Step | src/mandelbrot.rs:19-20 | definition, no contract: extent / pixel count (also src/main.rs:58-59); see RendererMatchesOneShot, TopRowLeavesView |
| Mandelbrot.CartesianProduct | src/mandelbrot.rs:21-22 | definition, no contract: rows outer, columns inner; see CartesianProductAt |
| Mandelbrot.PixelBytes | src/mandelbrot.rs:35-36 | definition, no contract: the `flat_map` of every pixel to [r, g, b, a]; see PixelBytesGroup |
| Mandelbrot.ImagePixel | src/mandelbrot.rs:19-34 | definition, no contract: the pixel of column x, row y with the one-shot steps; see ImagePixelsOrder, RendererMatchesOneShot |
| Mandelbrot.ImageCells | src/mandelbrot.rs:21-22 | definition, no contract: the product of rows 0..h with columns (0..w).rev(); see ImageCellsAt |
| Mandelbrot.ImagePixels | src/mandelbrot.rs:21-34 | definition, no contract: the pixel of every cell in enumeration order; see ImagePixelsOrder |
| Mandelbrot.RenderImage | src/mandelbrot.rs:10-37 | definition of `_mandelbrot`, no ensures; requires loop_threshold < u32::MAX (the counter of src/mandelbrot.rs:50 overflows otherwise); see RenderImageLength, RenderImageLayout, TwoByOneIsFlipped |
| Mandelbrot.PixelBytesGroup | src/mandelbrot.rs:35 | the flattened bytes number 4 per pixel, and group k is [r, g, b, a] of pixel k |
| Mandelbrot.CartesianProductAt | src/mandelbrot.rs:21-22 | element k of the product pairs rows[k / \|cols\|] with cols[k % \|cols\|] |
| Mandelbrot.ImageCellsAt | src/mandelbrot.rs:21-22 | enumeration cell k is row k / w, column w - 1 - k % w |
| Mandelbrot.ImagePixelsOrder | src/mandelbrot.rs:21-34 | pixel k of the enumeration is the pixel of column w - 1 - k % w, row k / w |
| Mandelbrot.RenderImageLength | src/mandelbrot.rs:10-37 | with loop_threshold < u32::MAX, `_mandelbrot` returns exactly 4 * image_width * image_height bytes |
| Mandelbrot.RenderImageLayout | src/mandelbrot.rs:10-37 | with loop_threshold < u32::MAX, byte group k is to_slice of the pixel at column w - 1 - k % w, row k / w |
| Mandelbrot.TwoByOneIsFlipped | src/mandelbrot.rs:21-26 | a 2 x 1 image lists the right-hand pixel first |
| RenderState.MyColourFunction | src/main.rs:27-35 | alpha is 255; r, g, b are the channel policy's values for the count |
| RenderState.Colour | src/main.rs:86-90 | definition, no contract: my_colour_function as the colour policy the pixel choice takes; see ComputedPixelsOpaque |
| RenderState.ComputedPixelsOpaque | src/main.rs:86-90 | every pixel the renderer computes (set pixel or colour) has alpha 255 |
| RenderState.InitialCanvas | src/main.rs:63 | the canvas is WIDTH x HEIGHT and holds SET_PIXEL in every cell |
| RenderState.Painted | src/main.rs:73-91 | writing a range of indices keeps the canvas shape |
| RenderState.PaintedAt | src/main.rs:78-90 | a cell of a painted canvas is the computed pixel if its linear index is in the range, else unchanged |
| RenderState.PaintedWrites | src/main.rs:78-90 | a written index p lands in cell (p % width, p / width) with that cell's pixel |
| RenderState.PaintedKeeps | src/main.rs:73-91 | a cell whose index lies outside the range keeps its pixel |
| RenderState.PaintedNothing | src/main.rs:73-77 | writing an empty range leaves the canvas unchanged |
| RenderState.PaintStep | src/main.rs:78-90 | writing index hi after lo .. hi - 1 updates exactly cell (x, y), where hi = y * width + x |
| RenderState.PaintNext | src/main.rs:78-90 | on a WIDTH x HEIGHT canvas, index p < width * height updates only cell (p % width, p / width), which is in bounds |
| RenderState.PaintedIsCanvas | src/main.rs:63 | writing keeps the canvas WIDTH x HEIGHT |
| RenderState.PaintedCompose | src/main.rs:73-74 | writing an overlapping range again after a range equals writing their union |
| RenderState.CursorAfter | src/main.rs:73-77 | definition, no contract: the cursor after one call; see BatchCursor, WrittenThroughCursor |
| RenderState.WrittenEnd | src/main.rs:73-91 | definition, no contract: one past the last index one call writes, min(start + PIXELS_PER_FRAME, total) on an unfinished image; see BatchWrites, WrittenThroughCursor |
| RenderState.WrittenThroughCursor | src/main.rs:73-77 | on an unfinished image, every index below the new cursor is written, and the cursor's own index is written exactly when the batch had room for all PIXELS_PER_FRAME indices |
| RenderState.Batch | src/main.rs:72-92 | one call keeps the canvas shape |
| RenderState.BatchCursor | src/main.rs:73-77 | the cursor never decreases and never passes width * height; an unfinished image advances; a batch with room for all PIXELS_PER_FRAME indices (start + PIXELS_PER_FRAME <= total) leaves the cursor on start + PIXELS_PER_FRAME - 1; a batch that meets total leaves it on total |
| RenderState.BatchIdempotent | src/main.rs:73-77 | once the cursor has reached width * height, a call changes neither canvas nor cursor |
| RenderState.BatchWrites | src/main.rs:73-91 | one call writes exactly the indices from the cursor to WrittenEnd - 1, that is min(cursor + PIXELS_PER_FRAME, total) - 1, or none once the image is complete; every other cell is unchanged |
| RenderState.BatchStopsAtEnd | src/main.rs:73-77 | a batch that meets total at index p leaves the cursor on p, with start .. p - 1 written |
| RenderState.BatchFullFrame | src/main.rs:73-74 | a full batch leaves the cursor on its last index, start + PIXELS_PER_FRAME - 1 |
| RenderState.Run | src/main.rs:72-92 | n calls keep the canvas shape |
| RenderState.RunFromStart | src/main.rs:72-92 | after n calls from cursor 0, the cursor is min(n * (PIXELS_PER_FRAME - 1), total) and exactly the indices below Reached(n) are written: none for n = 0, else those below min(n * (PIXELS_PER_FRAME - 1) + 1, total) |
| RenderState.RenderCompletes | src/main.rs:72-92 | after n calls with n * (PIXELS_PER_FRAME - 1) >= width * height, the cursor is total and every cell of the image holds its computed pixel |
| RenderState.PaintedWholeImage | src/main.rs:78-90 | writing every index below width * height gives each image cell its pixel |
| RenderState.FlipX | src/main.rs:96 | definition, no contract: canvas column WIDTH - 1 - i % WIDTH of output pixel i; see FlipInRange, EachCellOnce |
| RenderState.FlipY | src/main.rs:97 | definition, no contract: canvas row i / WIDTH of output pixel i; see FlipInRange, EachCellOnce |
| RenderState.OutputIndex | src/main.rs:96-97 | definition, no contract: the inverse of the flip, y * WIDTH + (WIDTH - 1 - x); see OutputIndexInRange, EachCellOnce |
| RenderState.FlipInRange | src/main.rs:96-97 | every output pixel of a full frame maps to a canvas cell, and OutputIndex maps back to it |
| RenderState.OutputIndexInRange | src/main.rs:96-97 | every canvas cell has an output pixel, and the flip maps back to it |
| RenderState.EachCellOnce | src/main.rs:96-97 | output pixel i shows cell (x, y) if and only if i = OutputIndex(x, y): each cell is emitted exactly once |
| RenderState.Emit | src/main.rs:93-100 | drawing keeps the frame length |
| RenderState.EmitCell | src/main.rs:93-100 | in a full frame, cell (x, y) fills the four bytes of its output pixel with to_slice of the cell |
| RenderState.EmitSetCanvas | src/main.rs:93-100 | drawing the initial canvas makes every chunk [0, 0, 0, 255] |
| RenderState.OneShotUsesEmitterFlip | src/mandelbrot.rs:21-26 | for a WIDTH x HEIGHT image, `_mandelbrot` group i is the cell (FlipX(i), FlipY(i)) that `draw` uses |
| RenderState.RendererMatchesOneShot | src/main.rs:58-59 | with equal x- and y-extents, the renderer's pixel map equals `_mandelbrot`'s |
| RenderState.TopRowLeavesView | src/main.rs:59 | with the program's constants in exact arithmetic, the x-extent step_y puts the top row at 1.295, outside the view; the y-extent step does not |
| RenderState.MandelbrotState.constructor | src/main.rs:50-71 | cursor 0; a WIDTH x HEIGHT canvas of SET_PIXEL whatever width and height are; step_x from the x-extent over width; step_y from the x-extent over height |
| RenderState.MandelbrotState.DrawNextFrame | src/main.rs:72-92 | the new canvas and cursor are Batch of the old ones; the class invariant is kept |
| RenderState.MandelbrotState.DrawPixel | src/main.rs:78-90 | one loop step writes index pointer into its cell and leaves the cursor alone |
| RenderState.MandelbrotState.ComputePixel | src/main.rs:80-90 | the pixel computed for (x, y) is the kernel's pixel for that cell |
| RenderState.MandelbrotState.Draw | src/main.rs:93-101 | the frame becomes Emit(pixels, old frame); only the frame changes |

## Left out

- The window, event loop, input handling and surface rendering (src/main.rs:104-164) are foreign I/O. `main` and its calls into winit and pixels are not modelled.
- IEEE-754 values are not modelled. This affects the coordinate mapping, `sqrt`, the escape comparison, the `f32` channel arithmetic with `round()` and the saturating `as u8`. All of these are uninterpreted operations. So no numeric scenario is proved, such as "(0, 0) never escapes". `TopRowLeavesView` evaluates the view bounds in exact arithmetic, not in doubles.
- `itertools::cartesian_product` and the iterator adaptors are modelled by their results, as nested sequence comprehensions.
- Rust `u32` overflow is excluded by preconditions rather than modelled:
  - `get_escape_iterations`, and with it `_mandelbrot` (`RenderImage` and the lemmas about it), need loop_threshold < u32::MAX;
  - `draw_next_frame` keeps width * height and pointer + PIXELS_PER_FRAME within u32 through its bound on width and height.
- MandelbrotState.DrawNextFrame: requires width <= WIDTH and height <= HEIGHT. The code panics only when a written cell actually falls outside the WIDTH x HEIGHT canvas, so this is slightly stronger than the code's own condition.
- MandelbrotState.Draw: requires the frame to hold at most WIDTH * HEIGHT chunks. A longer frame makes the code index past the canvas and panic, and that panic is not modelled.
- Mandelbrot.PixelOfChoice: states the choice one way only. A colour policy can itself return black with alpha 255, so "the pixel is SET_PIXEL exactly when the count passes the cap" does not hold for every policy.
- RenderState.MandelbrotState: `image` is a ghost field naming the pixel each cell receives, and `Valid` ties it to `PixelAt`. It is specification only and has no counterpart in the code.
- There is no concurrency in the code, so none is modelled.
