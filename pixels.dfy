/**
 * Per-pixel arithmetic of `image_to_ascii` (ascii_ify.py): the luminosity of an RGBA pixel,
 * the grayscale value written back over it, and the index of the glyph picked from the
 * density ramp. The floating-point weights 0.3, 0.59 and 0.11 are taken exactly, as
 * 30, 59 and 11 hundredths.
 */
module Pixels {

  /** One 8-bit channel of a Pillow RGBA image. */
  type Byte = x: int | 0 <= x < 256

  /** A pixel as `pixels[x, y]` returns it for an RGBA image: `(r, g, b, a)`. */
  datatype Rgba = Rgba(r: Byte, g: Byte, b: Byte, a: Byte)

  /** A fill colour passed to `draw.text`. */
  datatype Rgb = Rgb(r: Byte, g: Byte, b: Byte)

  const Black := Rgb(0, 0, 0)
  const White := Rgb(255, 255, 255)

  /** The ramp the command line uses, from densest to lightest. */
  const DefaultDensity := "@%#*+=-:. "

  function Min3(u: int, v: int, w: int): int {
    if u <= v && u <= w then u else if v <= w then v else w
  }

  function Max3(u: int, v: int, w: int): int {
    if u >= v && u >= w then u else if v >= w then v else w
  }

  /**
   * Luminosity of a pixel: 255 when it is fully transparent, whatever its colour;
   * otherwise the weighted sum 0.3 r + 0.59 g + 0.11 b, truncated.
   */
  function Luminosity(p: Rgba): (l: int)
    ensures 0 <= l <= 255
  {
    if p.a == 0 then 255 else (30 * p.r + 59 * p.g + 11 * p.b) / 100
  }

  /**
   * The pixel written back by `pixels[x, y] = (l, l, l)`: three equal channels; Pillow
   * sets alpha to 255 when a three-channel colour is stored into an RGBA image.
   */
  function Gray(p: Rgba): (g: Rgba)
    ensures g.a == 255 && g.r == g.g == g.b == Luminosity(p)
  {
    var l := Luminosity(p);
    Rgba(l, l, l, 255)
  }

  /** Index into a ramp of `n` characters for luminosity `lum`: `lum * (n - 1) / 255`, truncated. */
  function RampIndex(lum: int, n: int): (k: int)
    requires 0 <= lum <= 255 && n >= 1
    ensures 0 <= k < n
  {
    MulMonotone(lum, 255, n - 1);
    lum * (n - 1) / 255
  }

  /** The character drawn for pixel `p` with ramp `density`. */
  function Glyph(p: Rgba, density: string): (c: char)
    requires |density| > 0
    ensures c in density
    ensures p.a == 0 ==> c == density[|density| - 1]
  {
    RampIndexEnds(|density|);
    density[RampIndex(Luminosity(p), |density|)]
  }

  lemma MulMonotone(a: int, b: int, c: nat)
    requires a <= b
    ensures a * c <= b * c
  {
  }

  /** A transparent pixel is as light as can be, whatever its colour channels. */
  lemma TransparentIsLightest(p: Rgba, density: string)
    requires p.a == 0 && |density| > 0
    ensures Luminosity(p) == 255
    ensures Glyph(p, density) == density[|density| - 1]
  {
    RampIndexEnds(|density|);
  }

  /** Transparent black draws the same glyph as opaque white. */
  lemma TransparencyOverride(density: string)
    requires |density| > 0
    ensures Glyph(Rgba(0, 0, 0, 0), density) == Glyph(Rgba(255, 255, 255, 255), density)
  {
  }

  /** With exact weights a visible pixel's luminosity is a weighted mean: between its darkest and lightest channel. */
  lemma LuminosityBetweenChannels(p: Rgba)
    requires p.a != 0
    ensures Min3(p.r, p.g, p.b) <= Luminosity(p) <= Max3(p.r, p.g, p.b)
  {
  }

  /**
   * With exact weights a visible gray pixel `(v, v, v)` has luminosity `v`, so the overwrite
   * keeps its colour and only makes it opaque.
   */
  lemma GrayLuminosity(v: Byte, a: Byte)
    requires a != 0
    ensures Luminosity(Rgba(v, v, v, a)) == v
    ensures Gray(Rgba(v, v, v, a)) == Rgba(v, v, v, 255)
  {
  }

  /** With the exact weights, the grayscale overwrite keeps the luminosity and is idempotent. */
  lemma GrayIdempotent(p: Rgba)
    ensures Luminosity(Gray(p)) == Luminosity(p)
    ensures Gray(Gray(p)) == Gray(p)
  {
    GrayLuminosity(Luminosity(p), 255);
  }

  /** Luminosity 0 picks the first (densest) glyph and luminosity 255 the last (lightest). */
  lemma RampIndexEnds(n: int)
    requires n >= 1
    ensures RampIndex(0, n) == 0
    ensures RampIndex(255, n) == n - 1
  {
  }

  /** A brighter pixel never maps to a denser glyph than a dimmer one. */
  lemma RampIndexMonotone(l1: int, l2: int, n: int)
    requires 0 <= l1 <= l2 <= 255 && n >= 1
    ensures RampIndex(l1, n) <= RampIndex(l2, n)
  {
    MulMonotone(l1, l2, n - 1);
    DivMonotone(l1 * (n - 1), l2 * (n - 1), 255);
  }

  lemma DivMonotone(a: nat, b: nat, d: int)
    requires a <= b && d > 0
    ensures a / d <= b / d
  {
    if a / d > b / d {
      assert (a / d) * d >= (b / d + 1) * d by { MulMonotone(b / d + 1, a / d, d); }
    }
  }

  /** With the default ramp, opaque black draws "@" and a transparent pixel draws a space. */
  lemma DefaultRampEnds(v: Byte, c: Rgba)
    requires c.a == 0
    ensures Glyph(Rgba(0, 0, 0, v), DefaultDensity) == (if v == 0 then ' ' else '@')
    ensures Glyph(c, DefaultDensity) == ' '
  {
    TransparentIsLightest(c, DefaultDensity);
  }
}
