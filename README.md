# imgrow row compositor, modelled in Dafny

imgrow puts a list of images side by side in one row. Every image is
top-aligned. A fixed number of transparent columns (the spacing, 10 by default)
goes between neighbours, and the canvas is as tall as the tallest image.
Optionally the result is then resized to a requested height.

This project models the part of `src/main.rs` with real logic:

- **Aggregate geometry** (`Geometry`): the loop that sums the widths and adds
  one spacing after every image except the last, while tracking the largest
  height. `SumWidths`, `MaxHeight`, `TotalWidth` and `Offset` are the reference
  definitions. `ComputeGeometry` is the loop, proved against them.
- **Canvas allocation and fill** (`Compositor.NewTransparentCanvas`): a
  `total_width × max_height` `array2<Pixel>` set to transparent black by nested
  loops.
- **Pixel placement** (`Compositor.PutImage`, `Compositor.Compose`): copies
  every pixel of image k verbatim to column `x_off + x`. `x_off` is a running
  offset that advances by the image's width, then by the spacing unless this is
  the last image. `Placement.Placed` is an independent description of the
  finished row: first image, gap, rest. The lemmas show that it puts image k at
  `Offset(k)` and leaves every gap and every row below a shorter image
  transparent. They also show that slots do not overlap and that nothing falls
  outside the canvas. `Compose` is proved to produce exactly that row.
- **Option validation** (`Options.GetConfig`): the spacing defaults to 10 and
  must parse. A given height must parse and be greater than 0. An absent height
  stays at the sentinel -1, and the resize branch runs exactly when the height
  is not the sentinel.

Images are immutable values (`Raster.Image`, with `columns[x][y]` the pixel at
`(x, y)`). The canvas is an `array2<Pixel>` whose first dimension is x and whose
second is y. Decoding happens before the core runs, so `Compose` takes the
already-decoded, non-empty list of images.

## Model

| member | source | states |
|---|---|---|
| `Geometry.ComputeGeometry` | src/main.rs:16-37 | The width is the sum of the image widths plus `spacing * (n - 1)`: spacing between images, never after the last. The height is the maximum height: at least every image's height and equal to one of them. |
| `Geometry.MaxHeightIsMaximum` | src/main.rs:24 | The maximum height bounds every image's height and, for a non-empty list, equals one of them. A zero-height image is counted literally. |
| `Geometry.OffsetStep` | src/main.rs:61-64 | From one slot to the next, the offset grows by that image's width plus one spacing. |
| `Geometry.LastSlotEndsAtEdge` | src/main.rs:25-29 | The last image's slot ends exactly at the total width, so there is no trailing spacing. |
| `Geometry.SlotsOrdered` | src/main.rs:49-65 | An earlier slot's right edge, plus the spacing, is at or before a later slot's left edge. |
| `Geometry.SlotInBounds` | src/main.rs:54-58 | Every image's slot ends within the total width and its height is within the canvas height, so every `put_pixel` is in bounds. |
| `Geometry.SumWidthsFront` | src/main.rs:25 | The left-to-right width sum equals the first width plus the sum of the rest. This connects the loop's order to the layout's recursion. |
| `Geometry.OffsetShift` | src/main.rs:49-65 | Dropping the first image moves every later slot left by that image's width plus one spacing. |
| `Placement.PlacedInSlot` | src/main.rs:54-58 | Pixel `(x, y)` of image k lands at `(Offset(k) + x, y)` unchanged, with no blending. In image k's columns, rows below its height receive nothing. |
| `Placement.PlacedInGap` | src/main.rs:42-65 | The spacing columns after an image that is not the last receive no source pixel on any row. |
| `Placement.SlotColumns` | src/main.rs:51-64 | From image k's left edge to the next image's left edge, the finished canvas shows image k above its bottom edge and transparent black elsewhere. |
| `Placement.PlacedIffCovered` | src/main.rs:49-65 | A canvas position receives a source pixel if and only if some image's slot and height cover it. |
| `Placement.UncoveredIsTransparent` | src/main.rs:42-65 | A position that no image covers keeps the transparent fill. |
| `Placement.SlotsDisjoint` | src/main.rs:49-65 | No position is covered by two images, so writes for one image never touch another image's slot. |
| `Placement.PlacedWithinCanvas` | src/main.rs:20-65 | Every position that receives a pixel lies inside the `total_width × max_height` canvas. |
| `Placement.SingleImageIsCopy` | src/main.rs:20-65 | A one-image row is as wide and as tall as that image and shows it unchanged, whatever the spacing. |
| `Compositor.NewTransparentCanvas` | src/main.rs:42-47 | Allocates a fresh `width × height` canvas whose every pixel is `(0,0,0,0)` after the nested fill loops. |
| `Compositor.PutImage` | src/main.rs:54-59 | Copies image pixel `(x, y)` to canvas `(x + xOff, y)` for every `x < w`, `y < h`. Every other canvas pixel is unchanged. |
| `Compositor.Compose` | src/main.rs:16-65 | Computes the geometry, fills the canvas, and places every image. The result is `TotalWidth × MaxHeight` and every pixel equals the reference layout. Its loop invariants keep `x_off` equal to `Offset(i)` before image i and equal to the total width after the last. |
| `Options.GetConfig` | src/main.rs:135-157 | Spacing defaults to 10. A spacing that fails to parse is rejected, and that check comes first. A height that fails to parse is rejected, and so is a height ≤ 0. Otherwise the configuration carries the inputs. Its height is the sentinel -1 exactly when no height was given. So `ResizeRequested`, the test at src/main.rs:67, holds exactly when a height was given, and a given height is > 0. |
| `Examples.RedBlueRow` | src/main.rs:42-65 | For a 10×20 red image and a 15×5 blue image with spacing 10, the canvas is 35×20. Columns 0-9 are red, 10-19 transparent, 20-34 blue in rows 0-4 and transparent below. |

## Left out

- Decoding and encoding (`image::open`, `buffer.save`): these are file I/O and
  format codecs in a library outside the repository. `Compose` takes the decoded
  images as a sequence, and a decode or save failure is not modelled.
- The resize step (src/main.rs:67-76): it uses `f32` arithmetic, `.round()` and
  a Lanczos3 resample inside the image library. Only the decision to resize is
  modelled (`Options.ResizeRequested`, covered by `GetConfig`'s contract). The
  division by a zero `max_height` at line 68 is not modelled.
- Command-line parsing by clap and the `str::parse` calls: an option's value
  arrives as `Flag<T>`. It is absent, or present with the parse outcome (`None`
  when the text is not a number in range). Only the decisions taken on those
  outcomes are modelled. Clap's rule of at least one image is a precondition of
  `Compose`.
- Error messages, `println!`/`eprintln!` and `process::exit`: a failure is a
  `Failure(ConfigError)` value instead of an exit with status 1.
- Geometry.ComputeGeometry: widths, heights and offsets are unbounded `nat`.
  The model does not capture u32 overflow of `total_width` or of `x + x_off`,
  which would panic or wrap in the source.
- Pass-through idempotence: `Compose`'s ensures fix the canvas size and
  every pixel as a function of `images` and `spacing` alone. So any two
  runs on the same input give equal canvases. No separate lemma states this.
- Pixel format conversion: `get_pixel` on a decoded image (src/main.rs:56)
  converts any stored format to 8-bit RGBA. RGB gets alpha 255, grayscale is
  expanded, and 16-bit channels are narrowed. This conversion is treated as
  part of decoding, so the model takes images that are already RGBA8.
