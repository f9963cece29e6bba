/**
 * `image_to_ascii` (ascii_ify.py): walk every pixel column by column, overwrite it with its
 * grayscale value, pick a glyph from the density ramp and record one `draw.text` call per
 * pixel on a white canvas of `(width * cellWidth, height * cellHeight)`.
 *
 * The pixel buffer is an `array2<Rgba>` indexed `[x, y]` like Pillow's `pixels[x, y]`.
 * Drawing is abstracted as the sequence of `draw.text` calls made, in order.
 */
module Renderer {
  import opened Results
  import opened Pixels

  /** The glyph box `(b_right, b_bottom)` of "@" in the chosen font, in pixels. */
  datatype Cell = Cell(width: nat, height: nat)

  /** Per-conversion settings: the density ramp, the glyph box and the `colored` flag. */
  datatype Config = Config(density: string, cell: Cell, colored: bool)

  /** One `draw.text((x, y), glyph, fill=fill)` call. */
  datatype Draw = Draw(x: int, y: int, glyph: char, fill: Rgb)

  /** The returned image: its size, its background and the glyphs drawn on it, in order. */
  datatype Canvas = Canvas(width: int, height: int, background: Rgb, draws: seq<Draw>)

  /** An image as a value, by columns: `cols[x][y]` is the pixel at `(x, y)`. */
  datatype Image = Image(width: nat, height: nat, cols: seq<seq<Rgba>>) {
    predicate Valid() {
      |cols| == width && forall x :: 0 <= x < width ==> |cols[x]| == height
    }
  }

  /** Every pixel replaced by its grayscale value, as the loop leaves the buffer. */
  function GrayImage(img: Image): (g: Image)
    requires img.Valid()
    ensures g.Valid() && g.width == img.width && g.height == img.height
    ensures forall x, y :: 0 <= x < img.width && 0 <= y < img.height ==>
      g.cols[x][y] == Gray(img.cols[x][y])
  {
    Image(img.width, img.height,
      seq(img.width, x requires 0 <= x < img.width =>
        seq(img.height, y requires 0 <= y < img.height => Gray(img.cols[x][y]))))
  }

  /** The fill colour: the pixel's own colour when `colored`, otherwise black. */
  function Fill(p: Rgba, colored: bool): (f: Rgb)
    ensures !colored ==> f == Black
    ensures colored ==> f.r == p.r && f.g == p.g && f.b == p.b
  {
    if colored then Rgb(p.r, p.g, p.b) else Black
  }

  /** The `draw.text` call made at `(x, y)` for a pixel whose value before the overwrite was `p`. */
  function PixelDraw(p: Rgba, x: nat, y: nat, cfg: Config): (d: Draw)
    requires |cfg.density| > 0
    ensures d.x == x * cfg.cell.width && d.y == y * cfg.cell.height
    ensures d.glyph in cfg.density && d.fill == Fill(p, cfg.colored)
  {
    Draw(x * cfg.cell.width, y * cfg.cell.height, Glyph(p, cfg.density), Fill(p, cfg.colored))
  }

  /** The `draw.text` call made for pixel `(x, y)` of the original image. */
  function CellDraw(img: Image, x: nat, y: nat, cfg: Config): Draw
    requires img.Valid() && x < img.width && y < img.height && |cfg.density| > 0
  {
    PixelDraw(img.cols[x][y], x, y, cfg)
  }

  /** The calls the inner loop makes for rows `0 .. y - 1` of column `x`. */
  function ColumnDraws(img: Image, x: nat, y: nat, cfg: Config): (r: seq<Draw>)
    requires img.Valid() && x < img.width && y <= img.height && (y == 0 || |cfg.density| > 0)
    ensures |r| == y
    ensures forall d :: d in r ==> d.glyph in cfg.density
  {
    if y == 0 then [] else ColumnDraws(img, x, y - 1, cfg) + [CellDraw(img, x, y - 1, cfg)]
  }

  /** The calls the outer loop makes for columns `0 .. x - 1`. */
  function DrawsBefore(img: Image, x: nat, cfg: Config): (r: seq<Draw>)
    requires img.Valid() && x <= img.width && (x == 0 || img.height == 0 || |cfg.density| > 0)
    ensures forall d :: d in r ==> d.glyph in cfg.density
  {
    if x == 0 then [] else DrawsBefore(img, x - 1, cfg) + ColumnDraws(img, x - 1, img.height, cfg)
  }

  /** Indexing an empty ramp raises `IndexError` at the first pixel, if there is one. */
  predicate RenderFails(img: Image, cfg: Config): (b: bool)
    ensures b <==> |cfg.density| == 0 && img.width * img.height > 0
  {
    |cfg.density| == 0 && img.width > 0 && img.height > 0
  }

  /** The buffer holds exactly the image value `img`. */
  predicate Holds(pixels: array2<Rgba>, img: Image)
    reads pixels
  {
    img.Valid() && img.width == pixels.Length0 && img.height == pixels.Length1 &&
    forall x, y :: 0 <= x < pixels.Length0 && 0 <= y < pixels.Length1 ==> pixels[x, y] == img.cols[x][y]
  }

  /** What `image_to_ascii` returns for `img`. */
  function Render(img: Image, cfg: Config): (r: Result<Canvas>)
    requires img.Valid()
    ensures r.Failure? <==> RenderFails(img, cfg)
    ensures r.Failure? ==> r.error == IndexError
    ensures r.Success? ==>
      r.value.width == img.width * cfg.cell.width && r.value.height == img.height * cfg.cell.height &&
      r.value.background == White && r.value.draws == DrawsBefore(img, img.width, cfg)
    ensures r.Success? ==> forall d :: d in r.value.draws ==> d.glyph in cfg.density
  {
    if RenderFails(img, cfg) then Failure(IndexError)
    else Success(Canvas(img.width * cfg.cell.width, img.height * cfg.cell.height, White,
                        DrawsBefore(img, img.width, cfg)))
  }

  /**
   * `image_to_ascii`: size the canvas, then visit the pixels column by column (`x` outer,
   * `y` inner). Each pixel is read, overwritten in place with its grayscale value and then
   * drawn. With an empty ramp the first pixel is overwritten before the ramp lookup fails.
   * The ghost `img` names the buffer's contents at the call, so that the result can be
   * stated as `Render(img, cfg)`. On success the new buffer is stated twice on purpose:
   * as the value `GrayImage(img)`, which the lemmas about `Render` and `GrayImage` take,
   * and pixel by pixel against the old buffer, which needs no image value at all.
   */
  method ImageToAscii(pixels: array2<Rgba>, cfg: Config, ghost img: Image) returns (res: Result<Canvas>)
    requires img.Valid() && img.width == pixels.Length0 && img.height == pixels.Length1
    requires forall x, y :: 0 <= x < pixels.Length0 && 0 <= y < pixels.Length1 ==>
      pixels[x, y] == img.cols[x][y]
    modifies pixels
    ensures res == Render(img, cfg)
    ensures res.Success? ==> Holds(pixels, GrayImage(img))
    ensures res.Success? ==>
      forall x, y :: 0 <= x < pixels.Length0 && 0 <= y < pixels.Length1 ==>
        pixels[x, y] == Gray(old(pixels[x, y]))
    ensures res.Failure? ==>
      pixels[0, 0] == Gray(old(pixels[0, 0])) &&
      forall x, y :: 0 <= x < pixels.Length0 && 0 <= y < pixels.Length1 && (x != 0 || y != 0) ==>
        pixels[x, y] == old(pixels[x, y])
  {
    var w, h := pixels.Length0, pixels.Length1;
    var canvasWidth, canvasHeight := w * cfg.cell.width, h * cfg.cell.height;
    var draws: seq<Draw> := [];
    var fill := Black;
    var x := 0;
    while x < w
      invariant 0 <= x <= w
      invariant |cfg.density| == 0 && h > 0 ==> x == 0
      invariant draws == DrawsBefore(img, x, cfg)
      invariant !cfg.colored ==> fill == Black
      invariant forall i, j :: 0 <= i < w && 0 <= j < h ==>
        pixels[i, j] == if i < x then Gray(img.cols[i][j]) else img.cols[i][j]
    {
      var y := 0;
      while y < h
        invariant 0 <= y <= h
        invariant |cfg.density| == 0 ==> y == 0
        invariant draws == DrawsBefore(img, x, cfg) + ColumnDraws(img, x, y, cfg)
        invariant !cfg.colored ==> fill == Black
        invariant forall i, j :: 0 <= i < w && 0 <= j < h ==>
          pixels[i, j] == if i < x || (i == x && j < y) then Gray(img.cols[i][j]) else img.cols[i][j]
      {
        var ok, draw;
        ok, draw, fill := ConvertPixel(pixels, x, y, cfg, fill);
        if !ok {
          res := Failure(IndexError);
          return;
        }
        draws := draws + [draw];
        AppendCell(img, x, y, cfg);
        y := y + 1;
      }
      x := x + 1;
    }
    res := Success(Canvas(canvasWidth, canvasHeight, White, draws));
  }

  /**
   * The body of the inner loop: read pixel `(x, y)`, overwrite it with its grayscale value,
   * look its glyph up in the ramp (which fails on an empty ramp), update the fill colour and
   * produce the draw call. `fill` is the loop's running fill colour, black until `colored`
   * sets it.
   */
  method ConvertPixel(pixels: array2<Rgba>, x: nat, y: nat, cfg: Config, fill: Rgb)
      returns (ok: bool, draw: Draw, fill': Rgb)
    requires x < pixels.Length0 && y < pixels.Length1
    requires !cfg.colored ==> fill == Black
    modifies pixels
    ensures pixels[x, y] == Gray(old(pixels[x, y]))
    ensures forall i, j :: 0 <= i < pixels.Length0 && 0 <= j < pixels.Length1 && (i != x || j != y) ==>
      pixels[i, j] == old(pixels[i, j])
    ensures ok == (|cfg.density| > 0)
    ensures ok ==> draw == PixelDraw(old(pixels[x, y]), x, y, cfg)
    ensures !cfg.colored ==> fill' == Black
    ensures ok && cfg.colored ==> fill' == Fill(old(pixels[x, y]), true)
  {
    var p := pixels[x, y];
    var luminosity := Luminosity(p);
    pixels[x, y] := Rgba(luminosity, luminosity, luminosity, 255);
    fill' := fill;
    if |cfg.density| == 0 {
      return false, Draw(0, 0, ' ', fill), fill;
    }
    var glyph := cfg.density[RampIndex(luminosity, |cfg.density|)];
    if cfg.colored {
      fill' := Rgb(p.r, p.g, p.b);
    }
    ok, draw := true, Draw(x * cfg.cell.width, y * cfg.cell.height, glyph, fill');
  }

  lemma AppendCell(img: Image, x: nat, y: nat, cfg: Config)
    requires img.Valid() && x < img.width && y < img.height && |cfg.density| > 0
    ensures DrawsBefore(img, x, cfg) + ColumnDraws(img, x, y + 1, cfg) ==
            DrawsBefore(img, x, cfg) + ColumnDraws(img, x, y, cfg) + [CellDraw(img, x, y, cfg)]
  {
  }

  /** The first `x` columns make `x * height` draw calls. */
  lemma {:induction false} DrawsBeforeLength(img: Image, x: nat, cfg: Config)
    requires img.Valid() && x <= img.width && (x == 0 || img.height == 0 || |cfg.density| > 0)
    ensures |DrawsBefore(img, x, cfg)| == x * img.height
  {
    if x > 0 {
      DrawsBeforeLength(img, x - 1, cfg);
      assert (x - 1) * img.height + img.height == x * img.height;
    }
  }

  lemma {:induction false} ColumnDrawsAt(img: Image, x: nat, y: nat, j: nat, cfg: Config)
    requires img.Valid() && x < img.width && y <= img.height && |cfg.density| > 0 && j < y
    ensures ColumnDraws(img, x, y, cfg)[j] == CellDraw(img, x, j, cfg)
  {
    if j < y - 1 {
      ColumnDrawsAt(img, x, y - 1, j, cfg);
    }
  }

  lemma {:induction false} DrawsBeforeAt(img: Image, n: nat, x: nat, y: nat, cfg: Config)
    requires img.Valid() && n <= img.width && |cfg.density| > 0 && x < n && y < img.height
    ensures x * img.height + y < |DrawsBefore(img, n, cfg)|
    ensures DrawsBefore(img, n, cfg)[x * img.height + y] == CellDraw(img, x, y, cfg)
  {
    var h := img.height;
    MulMonotone(x + 1, n, h);
    DrawsBeforeLength(img, n, cfg);
    DrawsBeforeLength(img, n - 1, cfg);
    if x == n - 1 {
      ColumnDrawsAt(img, x, h, y, cfg);
    } else {
      MulMonotone(x + 1, n - 1, h);
      DrawsBeforeAt(img, n - 1, x, y, cfg);
    }
  }

  /**
   * Draw call number `x * height + y` is the one for pixel `(x, y)`: its glyph comes from
   * the pixel's luminosity, its offset is `(x * cellWidth, y * cellHeight)`, and its fill is
   * black, or the pixel's original colour when `colored`.
   */
  lemma DrawForPixel(img: Image, cfg: Config, x: nat, y: nat)
    requires img.Valid() && !RenderFails(img, cfg) && x < img.width && y < img.height
    ensures x * img.height + y < |Render(img, cfg).value.draws|
    ensures Render(img, cfg).value.draws[x * img.height + y] ==
      Draw(x * cfg.cell.width, y * cfg.cell.height,
           cfg.density[RampIndex(Luminosity(img.cols[x][y]), |cfg.density|)],
           if cfg.colored then Rgb(img.cols[x][y].r, img.cols[x][y].g, img.cols[x][y].b) else Black)
  {
    DrawsBeforeAt(img, img.width, x, y, cfg);
  }

  /** Every draw call belongs to exactly one pixel, in column-major order. */
  lemma DrawIsPixel(img: Image, cfg: Config, k: nat)
    requires img.Valid() && !RenderFails(img, cfg) && k < |Render(img, cfg).value.draws|
    ensures img.height > 0 && k / img.height < img.width && k == (k / img.height) * img.height + k % img.height
    ensures Render(img, cfg).value.draws[k] == CellDraw(img, k / img.height, k % img.height, cfg)
  {
    DrawsBeforeLength(img, img.width, cfg);
    SplitIndex(k, img.width, img.height);
    DrawsBeforeAt(img, img.width, k / img.height, k % img.height, cfg);
  }

  /** The canvas is the source size scaled by the glyph box, on a white background. */
  lemma CanvasSize(img: Image, cfg: Config)
    requires img.Valid() && !RenderFails(img, cfg)
    ensures Render(img, cfg).value.width == img.width * cfg.cell.width
    ensures Render(img, cfg).value.height == img.height * cfg.cell.height
    ensures Render(img, cfg).value.background == White
    ensures |Render(img, cfg).value.draws| == img.width * img.height
  {
    DrawsBeforeLength(img, img.width, cfg);
  }

  /** With a non-empty glyph box, no two draw calls share an offset. */
  lemma DrawOffsetsDistinct(img: Image, cfg: Config, i: nat, j: nat)
    requires img.Valid() && !RenderFails(img, cfg) && cfg.cell.width > 0 && cfg.cell.height > 0
    requires i < j < |Render(img, cfg).value.draws|
    ensures Render(img, cfg).value.draws[i].x != Render(img, cfg).value.draws[j].x ||
            Render(img, cfg).value.draws[i].y != Render(img, cfg).value.draws[j].y
  {
    var h := img.height;
    DrawIsPixel(img, cfg, i);
    DrawIsPixel(img, cfg, j);
    var xi, yi, xj, yj := i / h, i % h, j / h, j % h;
    if xi * cfg.cell.width == xj * cfg.cell.width && yi * cfg.cell.height == yj * cfg.cell.height {
      MulInjective(xi, xj, cfg.cell.width);
      MulInjective(yi, yj, cfg.cell.height);
      assert false;
    }
  }

  /** Every glyph cell lies inside the canvas. */
  lemma DrawInsideCanvas(img: Image, cfg: Config, k: nat)
    requires img.Valid() && !RenderFails(img, cfg) && k < |Render(img, cfg).value.draws|
    ensures 0 <= Render(img, cfg).value.draws[k].x
    ensures Render(img, cfg).value.draws[k].x + cfg.cell.width <= Render(img, cfg).value.width
    ensures 0 <= Render(img, cfg).value.draws[k].y
    ensures Render(img, cfg).value.draws[k].y + cfg.cell.height <= Render(img, cfg).value.height
  {
    var h := img.height;
    DrawIsPixel(img, cfg, k);
    MulMonotone(k / h + 1, img.width, cfg.cell.width);
    MulMonotone(k % h + 1, h, cfg.cell.height);
  }

  lemma SplitIndex(k: nat, w: nat, h: nat)
    requires k < w * h
    ensures h > 0 && k / h < w && k % h < h && k == (k / h) * h + k % h
  {
    var x := k / h;
    if x >= w {
      MulMonotone(w, x, h);
    }
  }

  lemma MulInjective(a: nat, b: nat, c: nat)
    requires c > 0 && a * c == b * c
    ensures a == b
  {
    if a < b {
      MulMonotone(a + 1, b, c);
    } else if b < a {
      MulMonotone(b + 1, a, c);
    }
  }

  /** With the exact weights, the grayscale pass is idempotent on the buffer. */
  lemma GrayImageIdempotent(img: Image)
    requires img.Valid()
    ensures GrayImage(GrayImage(img)) == GrayImage(img)
  {
    var g, gg := GrayImage(img), GrayImage(GrayImage(img));
    forall x | 0 <= x < img.width
      ensures gg.cols[x] == g.cols[x]
    {
      forall y | 0 <= y < img.height
        ensures gg.cols[x][y] == g.cols[x][y]
      {
        GrayIdempotent(img.cols[x][y]);
      }
    }
  }

  lemma {:induction false} GrayColumnDraws(img: Image, x: nat, y: nat, cfg: Config)
    requires img.Valid() && x < img.width && y <= img.height && |cfg.density| > 0 && !cfg.colored
    ensures ColumnDraws(GrayImage(img), x, y, cfg) == ColumnDraws(img, x, y, cfg)
  {
    if y > 0 {
      GrayColumnDraws(img, x, y - 1, cfg);
      GrayIdempotent(img.cols[x][y - 1]);
    }
  }

  lemma {:induction false} GrayDrawsBefore(img: Image, x: nat, cfg: Config)
    requires img.Valid() && x <= img.width && (x == 0 || img.height == 0 || |cfg.density| > 0)
    requires !cfg.colored
    ensures DrawsBefore(GrayImage(img), x, cfg) == DrawsBefore(img, x, cfg)
  {
    if x > 0 {
      GrayDrawsBefore(img, x - 1, cfg);
      if img.height > 0 {
        GrayColumnDraws(img, x - 1, img.height, cfg);
      }
    }
  }

  /**
   * With the exact weights, rendering the buffer the loop left behind (`GrayImage(img)`,
   * as `ImageToAscii` ensures), uncoloured, gives the same canvas as rendering the original:
   * a second pass is a no-op on the output.
   */
  lemma RenderGrayIdempotent(img: Image, cfg: Config)
    requires img.Valid() && !cfg.colored
    ensures Render(GrayImage(img), cfg) == Render(img, cfg)
  {
    if !RenderFails(img, cfg) {
      GrayDrawsBefore(img, img.width, cfg);
    }
  }

  /**
   * A 2 x 1 image of an opaque black and an opaque white pixel, ramp "@ ",
   * glyph box 10 x 10, uncoloured, gives a 20 x 10 canvas with "@" then " ", both black.
   */
  lemma TwoPixelExample()
    ensures Render(Image(2, 1, [[Rgba(0, 0, 0, 255)], [Rgba(255, 255, 255, 255)]]),
                   Config("@ ", Cell(10, 10), false))
         == Success(Canvas(20, 10, White, [Draw(0, 0, '@', Black), Draw(10, 0, ' ', Black)]))
  {
    var img := Image(2, 1, [[Rgba(0, 0, 0, 255)], [Rgba(255, 255, 255, 255)]]);
    var cfg := Config("@ ", Cell(10, 10), false);
    assert Glyph(Rgba(0, 0, 0, 255), "@ ") == '@';
    assert Luminosity(Rgba(255, 255, 255, 255)) == 255;
    assert Glyph(Rgba(255, 255, 255, 255), "@ ") == ' ';
    assert ColumnDraws(img, 0, 1, cfg) == [Draw(0, 0, '@', Black)];
    assert ColumnDraws(img, 1, 1, cfg) == [Draw(10, 0, ' ', Black)];
    assert DrawsBefore(img, 1, cfg) == [Draw(0, 0, '@', Black)];
    assert DrawsBefore(img, 2, cfg) == [Draw(0, 0, '@', Black), Draw(10, 0, ' ', Black)];
    assert !RenderFails(img, cfg);
  }
}
