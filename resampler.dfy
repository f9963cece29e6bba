/**
 * The dimension arithmetic of `resize_image` (ascii_ify.py): the new width is the one asked
 * for and the new height is `int(resized_width * height / width)`, computed here exactly.
 * The resampling of pixel values is Pillow's and is not modelled.
 */
module Resampler {
  import opened Results
  import Pixels

  /** `image.size`: width then height. */
  datatype Size = Size(width: int, height: int)

  /** Python's `int()` of the exact quotient `a / b`: truncation toward zero. */
  function TruncDiv(a: int, b: int): (q: int)
    requires b > 0
    ensures 0 <= a ==> 0 <= q * b <= a < q * b + b
    ensures a < 0 ==> a <= q * b < a + b
  {
    if a >= 0 then
      DivMod(a, b);
      a / b
    else
      var k := (-a) / b;
      DivMod(-a, b);
      assert (-k) * b == -(k * b);
      -k
  }

  lemma DivMod(m: nat, b: int)
    requires b > 0
    ensures 0 <= (m / b) * b <= m < (m / b) * b + b
  {
  }

  /**
   * The size `resize_image(image, resizedWidth)` asks Pillow for. A zero-width image makes
   * the aspect ratio divide by zero.
   */
  function ResizedSize(size: Size, resizedWidth: int): (r: Result<Size>)
    requires size.width >= 0 && size.height >= 0
    ensures size.width == 0 <==> r == Failure(ZeroDivisionError)
    ensures r.Success? <==> size.width != 0
    ensures r.Success? ==> r.value.width == resizedWidth
    ensures r.Success? && resizedWidth >= 0 ==>
      r.value.height * size.width <= resizedWidth * size.height < (r.value.height + 1) * size.width
    ensures r.Success? && resizedWidth < 0 ==>
      (r.value.height - 1) * size.width < resizedWidth * size.height <= r.value.height * size.width
  {
    if size.width == 0 then Failure(ZeroDivisionError)
    else Success(Size(resizedWidth, TruncDiv(resizedWidth * size.height, size.width)))
  }

  /** A 100 x 50 image resized to width 20 becomes 20 x 10. */
  lemma ResizeExample()
    ensures ResizedSize(Size(100, 50), 20) == Success(Size(20, 10))
  {
  }

  /** With the exact quotient, resizing to the image's own width keeps its height. */
  lemma ResizeToOwnWidth(size: Size)
    requires size.width > 0 && size.height >= 0
    ensures ResizedSize(size, size.width) == Success(size)
  {
    var h := ResizedSize(size, size.width).value.height;
    if h < size.height {
      Pixels.MulMonotone(h + 1, size.height, size.width);
    } else if h > size.height {
      Pixels.MulMonotone(size.height + 1, h, size.width);
    }
  }

  /** The height comes out 0 exactly when the scaled height is below one pixel. */
  lemma ZeroHeight(size: Size, resizedWidth: nat)
    requires size.width > 0 && size.height >= 0
    ensures ResizedSize(size, resizedWidth).value.height == 0 <==> resizedWidth * size.height < size.width
  {
    var h := ResizedSize(size, resizedWidth).value.height;
    if h >= 1 {
      Pixels.MulMonotone(1, h, size.width);
    }
  }

  /**
   * A target width between 0 and the source width gives a height between 0 and the
   * source height: shrinking never makes the image taller.
   */
  lemma ShrinkNeverGrows(size: Size, resizedWidth: nat)
    requires size.width > 0 && size.height >= 0 && resizedWidth <= size.width
    ensures 0 <= ResizedSize(size, resizedWidth).value.height <= size.height
  {
    var h := ResizedSize(size, resizedWidth).value.height;
    Pixels.MulMonotone(resizedWidth, size.width, size.height);
    if h > size.height {
      Pixels.MulMonotone(size.height + 1, h, size.width);
    }
    if h < 0 {
      Pixels.MulMonotone(h, -1, size.width);
    }
  }
}
