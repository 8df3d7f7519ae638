/** Per-pixel tone mapping of the halftone converter: the luminance of one
    RGB sample and the dot radius that luminance maps to. Both are inline
    expressions in updateHalftoneData; here they are exact reals, so no
    claim is made about floating-point rounding. */
module Tone {

  /** One channel of a Uint8ClampedArray pixel buffer. */
  type Byte = b: int | 0 <= b < 256

  /** Luminance with the ITU-R BT.601 luma weights 0.299, 0.587, 0.114.
      The weights sum to one, so 8-bit channels give a luminance in
      [0, 255]; it is 0 exactly for black and 255 exactly for white. */
  function Luminance(r: Byte, g: Byte, b: Byte): (lum: real)
    ensures 0.0 <= lum <= 255.0
    ensures lum == 0.0 <==> r == 0 && g == 0 && b == 0
    ensures lum == 255.0 <==> r == 255 && g == 255 && b == 255
  {
    0.299 * r as real + 0.587 * g as real + 0.114 * b as real
  }

  /** Radius of the dot drawn for a sample: the darker the sample, the larger
      the dot, up to dotSize (the "maximum dot radius") for black. The
      formula is applied to any luminance as it is. */
  function Radius(lum: real, dotSize: real): (r: real)
    ensures lum == 0.0 ==> r == dotSize
    ensures lum == 255.0 ==> r == 0.0
    ensures dotSize == 0.0 ==> r == 0.0
  {
    (1.0 - lum / 255.0) * dotSize
  }

  /** For a luminance that 8-bit channels can produce, the radius lies
      between 0 and the maximum dot radius. */
  lemma RadiusBounds(lum: real, dotSize: real)
    requires 0.0 <= lum <= 255.0 && 0.0 <= dotSize
    ensures 0.0 <= Radius(lum, dotSize) <= dotSize
  {
    var shade := 1.0 - lum / 255.0;
    assert 0.0 <= shade <= 1.0;
    ScaleWithinBound(shade, dotSize);
  }

  /** Scaling a non-negative bound by a factor in [0, 1] stays within it. */
  lemma ScaleWithinBound(f: real, d: real)
    requires 0.0 <= f <= 1.0 && 0.0 <= d
    ensures 0.0 <= f * d <= d
  {
    assert d - f * d == (1.0 - f) * d;
  }

  /** The radius never grows as luminance grows, and with a positive dot size
      it shrinks strictly: one luminance is below another exactly when its
      dot is larger. */
  lemma RadiusMonotone(l1: real, l2: real, dotSize: real)
    requires 0.0 <= dotSize
    ensures l1 <= l2 ==> Radius(l2, dotSize) <= Radius(l1, dotSize)
    ensures 0.0 < dotSize ==> (l1 < l2 <==> Radius(l2, dotSize) < Radius(l1, dotSize))
  {
    var gap := (l2 - l1) / 255.0;
    assert (1.0 - l1 / 255.0) - (1.0 - l2 / 255.0) == gap;
    assert Radius(l1, dotSize) - Radius(l2, dotSize) == gap * dotSize by {
      var s1, s2 := 1.0 - l1 / 255.0, 1.0 - l2 / 255.0;
      assert s1 * dotSize - s2 * dotSize == (s1 - s2) * dotSize;
    }
    if 0.0 < dotSize {
      if l1 < l2 {
        assert 0.0 < gap * dotSize;
      } else {
        assert gap * dotSize <= 0.0 by {
          assert 0.0 <= -gap;
          assert 0.0 <= -gap * dotSize;
        }
      }
    } else {
      assert gap * dotSize == 0.0;
    }
  }

  /** A pixel that is no brighter than another in every channel gets a dot
      at least as large. */
  lemma DarkerPixelLargerDot(r1: Byte, g1: Byte, b1: Byte, r2: Byte, g2: Byte, b2: Byte, dotSize: real)
    requires r1 <= r2 && g1 <= g2 && b1 <= b2
    requires 0.0 <= dotSize
    ensures Radius(Luminance(r2, g2, b2), dotSize) <= Radius(Luminance(r1, g1, b1), dotSize)
  {
    RadiusMonotone(Luminance(r1, g1, b1), Luminance(r2, g2, b2), dotSize);
  }
}
