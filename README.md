# ascii-ify in Dafny

A Dafny model of the core of `ascii_ify.py`, a script that turns raster images into
pictures made of text glyphs. The core has two parts:

- `resize_image`: the size it asks Pillow for. The width is the requested width. The height
  is `int(resized_width * (height / width))`, which keeps the aspect ratio.
- `image_to_ascii`: a nested loop over every pixel, `x` outer and `y` inner, so the order is
  column-major. For each pixel it computes a luminosity. A fully transparent pixel gets 255;
  any other pixel gets `0.3 r + 0.59 g + 0.11 b`, truncated. The loop writes that gray value
  back over the pixel, picks character `lum * (len - 1) / 255` of the density ramp, and draws
  it at `(x * cellWidth, y * cellHeight)`. The glyph is drawn in black, or in the pixel's
  original colour when `colored` is set. The canvas it draws on is white and measures
  `(width * cellWidth, height * cellHeight)`.

Files and modules:

- `results.dfy` (`Results`): the two exceptions the model keeps, `IndexError` and
  `ZeroDivisionError`, and a `Result` type that carries them.
- `pixels.dfy` (`Pixels`): 8-bit RGBA pixels, luminosity, the grayscale overwrite, the ramp
  index and the glyph. Pure functions and lemmas.
- `resampler.dfy` (`Resampler`): the dimension arithmetic of `resize_image`. Pure functions
  and lemmas.
- `renderer.dfy` (`Renderer`): `image_to_ascii`. The pixel buffer is an `array2<Rgba>`
  indexed `[x, y]`, like Pillow's `pixels[x, y]`. The method `ImageToAscii` runs the nested
  loops, overwrites the buffer in place and collects the `draw.text` calls in order. The
  function `Render` specifies the result on an image value. The lemmas state what the
  rendered canvas looks like. `ImageToAscii` takes a ghost parameter `img`, the buffer's
  contents at the call, so that its result can be stated as `Render(img, cfg)`. It exists
  only for the proof and places no demand on the caller's image.

Choices made where the code leaves something implicit:

- Line 52 stores a three-channel tuple into an RGBA image. Pillow then sets alpha to 255, so
  the overwritten pixel is `(lum, lum, lum, 255)`.
- An empty density ramp makes `density[...]` at line 53 raise `IndexError` at the first
  pixel. Line 52 has already overwritten that pixel. The model returns
  `Failure(IndexError)` and leaves exactly pixel `(0, 0)` changed. An image with no pixels
  renders without error even with an empty ramp.
- A zero-width image makes line 17 divide by zero. `ResizedSize` returns
  `Failure(ZeroDivisionError)`.
- `int()` truncates toward zero. `TruncDiv` models that for negative resize widths, which the
  `--resizeFinal` option does not reject.

Further facts about the code that the model keeps:

- The loops visit pixels column by column (line 45 over `x`, line 46 over `y`).
- Luminosity is truncated by `int()` (line 51), not rounded. With exact weights it needs no
  clamping, because the weights sum to 1.
- `resize_image` has no check of its own on the resulting height. A width small enough
  makes line 18 ask for height 0, which Pillow's `resize` at line 19 then rejects.
- Line 47 always unpacks four channels. The model has no RGB-only path, because the
  command line converts every image to RGBA before calling `image_to_ascii`.

## Model

| member | source | states |
|---|---|---|
| `Pixels.Luminosity` | ascii_ify.py:51 | luminosity always lies in [0, 255] for 8-bit channels |
| `Pixels.LuminosityBetweenChannels` | ascii_ify.py:51 | with exact weights, for a visible pixel luminosity is a weighted mean: between the smallest and largest of r, g, b |
| `Pixels.TransparentIsLightest` | ascii_ify.py:49-53 | alpha 0 gives luminosity 255 whatever the colour, so the last (lightest) ramp character |
| `Pixels.TransparencyOverride` | ascii_ify.py:49-51 | transparent black `(0,0,0,0)` draws the same glyph as opaque white |
| `Pixels.GrayLuminosity` | ascii_ify.py:51-52 | with exact weights, a visible gray pixel `(v,v,v)` has luminosity `v`, so the overwrite keeps its colour and only sets alpha to 255 |
| `Pixels.GrayIdempotent` | ascii_ify.py:51-52 | with exact weights, the overwritten pixel has the same luminosity as the original, and overwriting it again changes nothing |
| `Pixels.Gray` | ascii_ify.py:52 | the overwritten pixel is opaque (alpha 255) and gray: all three channels equal the luminosity |
| `Pixels.Glyph` | ascii_ify.py:53 | the drawn character is one of the ramp's characters, and a transparent pixel gets the last one |
| `Pixels.RampIndex` | ascii_ify.py:53 | for a non-empty ramp and a luminosity in [0, 255], the index lies in `[0, len - 1]` |
| `Pixels.RampIndexEnds` | ascii_ify.py:53 | luminosity 0 selects index 0 and luminosity 255 selects index `len - 1` |
| `Pixels.RampIndexMonotone` | ascii_ify.py:53 | the ramp index never decreases as luminosity increases |
| `Pixels.DefaultRampEnds` | ascii_ify.py:27-30 | with the ramp `"@%#*+=-:. "`, opaque black draws `@` and a transparent pixel draws a space |
| `Resampler.TruncDiv` | ascii_ify.py:18 | `int()` of an exact quotient truncates toward zero: the floor for non-negative values, the ceiling for negative ones |
| `Resampler.ResizedSize` | ascii_ify.py:17-19 | a zero-width source fails with a division by zero, and any other width succeeds; then the width is the requested one and `height * w <= resized * h < (height + 1) * w`, so the aspect ratio is kept to within one pixel |
| `Resampler.ResizeExample` | ascii_ify.py:17-19 | 100 x 50 resized to width 20 gives 20 x 10 |
| `Resampler.ResizeToOwnWidth` | ascii_ify.py:17-18 | with the exact quotient, resizing to the image's own width keeps its height |
| `Resampler.ZeroHeight` | ascii_ify.py:18 | the requested height is 0 exactly when `resized * h < w`; such a size is then passed to Pillow's `resize`, which rejects it |
| `Resampler.ShrinkNeverGrows` | ascii_ify.py:17-18 | a width no larger than the source's gives a height between 0 and the source's height |
| `Renderer.ImageToAscii` | ascii_ify.py:22-60 | the nested loop returns exactly `Render` of the image as it was at the call; afterwards the buffer holds `GrayImage` of that image, every pixel the gray value of its own original; with an empty ramp it fails with `IndexError`, and only pixel (0, 0) has been overwritten |
| `Renderer.ConvertPixel` | ascii_ify.py:47-58 | one loop pass overwrites only pixel (x, y) with its gray value; it fails exactly when the ramp is empty; otherwise it produces the draw call for the pixel's value before the overwrite; the fill stays black unless `colored`, and with `colored` it becomes the pixel's original `(r, g, b)` |
| `Renderer.Fill` | ascii_ify.py:43-56 | the fill is black unless `colored`; then it is the pixel's `(r, g, b)` with alpha dropped |
| `Renderer.PixelDraw` | ascii_ify.py:53-58 | the call for a pixel is placed at `(x * cellW, y * cellH)`, draws a character of the ramp and uses that pixel's fill |
| `Renderer.DrawsBefore` | ascii_ify.py:45-58 | the calls of the first `x` columns, in order; every glyph drawn comes from the ramp |
| `Renderer.RenderFails` | ascii_ify.py:45-53 | the loop fails exactly when the ramp is empty and the image has at least one pixel |
| `Renderer.Render` | ascii_ify.py:38-60 | fails with `IndexError` exactly when `RenderFails`; otherwise a white `(w * cellW, h * cellH)` canvas carrying `DrawsBefore`'s calls for all columns, each glyph from the ramp |
| `Renderer.GrayImage` | ascii_ify.py:52 | the buffer after the loop: same size, and every pixel is the gray value of the original one |
| `Renderer.ColumnDraws` | ascii_ify.py:46-58 | the inner loop makes one draw call per row |
| `Renderer.DrawsBeforeLength` | ascii_ify.py:45-58 | the first `x` columns make `x * height` draw calls |
| `Renderer.ColumnDrawsAt` | ascii_ify.py:46-58 | the inner loop's call `j` is the one for row `j` |
| `Renderer.DrawsBeforeAt` | ascii_ify.py:45-58 | call number `x * height + y` is the one for pixel (x, y) |
| `Renderer.DrawForPixel` | ascii_ify.py:43-58 | the draw call for pixel (x, y) has offset `(x * cellW, y * cellH)` and the ramp character at the pixel's luminosity index; its fill is black, or the pixel's original `(r, g, b)` read before the overwrite when `colored` |
| `Renderer.DrawIsPixel` | ascii_ify.py:45-58 | every draw call belongs to exactly one pixel, `(k / height, k % height)`, so the order is column-major |
| `Renderer.CanvasSize` | ascii_ify.py:38 | the canvas is exactly `(w * cellW, h * cellH)`, white, with `w * h` draw calls |
| `Renderer.DrawOffsetsDistinct` | ascii_ify.py:45-58 | with a non-empty glyph box, no two draw calls share an offset, so each pixel is drawn exactly once |
| `Renderer.DrawInsideCanvas` | ascii_ify.py:38-58 | every glyph cell lies inside the canvas |
| `Renderer.GrayImageIdempotent` | ascii_ify.py:52 | with exact weights, applying the grayscale overwrite to a buffer a second time changes nothing |
| `Renderer.GrayColumnDraws` | ascii_ify.py:46-58 | with exact weights and without colour, a column of the grayscaled buffer draws the same calls as the original column |
| `Renderer.GrayDrawsBefore` | ascii_ify.py:45-58 | with exact weights and without colour, the first `x` columns of the grayscaled buffer draw the same calls as the original |
| `Renderer.RenderGrayIdempotent` | ascii_ify.py:45-60 | with exact weights and without colour, rendering the buffer the loop left behind (`GrayImage` of the original, by `ImageToAscii`'s contract) gives the same canvas as rendering the original |
| `Renderer.TwoPixelExample` | ascii_ify.py:38-58 | a 2 x 1 image of opaque black and white, ramp `"@ "`, box 10 x 10, uncoloured, gives a 20 x 10 canvas with `@` at (0, 0) and a space at (10, 0), both black |

## Left out

- Pillow's pixel resampling in `Image.resize` (line 19) is not modelled. Only the requested size is modelled. Pillow rejects a zero or negative width or height there with a `ValueError`; that failure is not part of this model.
- Font loading (`ImageFont.truetype`, including the `WINDIR` font path) and the glyph box query `font.getbbox("@")` (lines 36-37) are foreign library calls. The glyph box `(b_right, b_bottom)` is a parameter, `Cell`. `font_size` only reaches the model through it.
- `Image.new` and `ImageDraw.text` (lines 38-39, 58) are foreign library calls. The canvas is modelled as its size, its white background and the ordered list of `draw.text` calls. The rasterised glyph pixels are not modelled.
- Luminosity: uses the exact weights 30/100, 59/100 and 11/100. Line 51 computes in IEEE-754 doubles, where the sum can land just below an integer and then truncate one lower. For example `1*0.3 + 1*0.59 + 1*0.11` is `0.9999999999999999`, so gray `(1,1,1)` gets luminosity 0; 67 of the 256 gray levels lose one this way. This floating-point behaviour is not modelled.
- LuminosityBetweenChannels, GrayLuminosity, GrayIdempotent, GrayImageIdempotent, GrayColumnDraws, GrayDrawsBefore and RenderGrayIdempotent hold for the exact weights only. Under doubles gray `(1,1,1)` gets a luminosity below its smallest channel, and the grayscale pass is not idempotent: with the default ramp, opaque `(60,55,60)` has luminosity 57 and draws `#`, while the `(57,57,57)` the loop leaves behind has luminosity 56 and draws `%`.
- ResizedSize: uses the exact quotient `resized * h / w`. Line 17 computes `h / w` as a double first, so line 18 can come out one lower when the exact quotient is an integer. That off-by-one is not modelled.
- ResizeToOwnWidth holds for the exact quotient only. Under doubles `int(49 * (1 / 49))` is 0, so a 49 x 1 image resized to its own width asks for height 0.
- The `__main__` block (lines 63-147) is not modelled. It is argument parsing, directory listing, file loading and saving, GIF assembly and exit codes: input/output glue around the two functions.
