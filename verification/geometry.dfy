/**
 * The normalized-to-pixel conversion both image renderers apply to a
 * region's bounding box, with JavaScript `Math.round` on exact reals.
 */
module Geometry {
  import opened Wrappers
  import opened Types

  /** JavaScript `Math.round`: the nearest integer, halves rounded toward +infinity. */
  function JsRound(v: real): (r: int)
    ensures v - 0.5 < r as real <= v + 0.5
  {
    (v + 0.5).Floor
  }

  /** Rounding never reverses the order of two values. */
  lemma JsRoundMonotone(u: real, v: real)
    requires u <= v
    ensures JsRound(u) <= JsRound(v)
  {
  }

  /** Integers round to themselves. */
  lemma JsRoundOfInt(n: int)
    ensures JsRound(n as real) == n
  {
  }

  /** A region's rectangle in pixels: left, top, width and height. */
  datatype PixelRect = PixelRect(x: int, y: int, w: int, h: int)

  /**
   * Math.round(x1 * W), Math.round(y1 * H), Math.round((x2 - x1) * W),
   * Math.round((y2 - y1) * H).
   */
  function ToPixels(b: BBox, width: nat, height: nat): (p: PixelRect)
    ensures p.x == JsRound(b.x1 * width as real) && p.y == JsRound(b.y1 * height as real)
    ensures p.w == JsRound((b.x2 - b.x1) * width as real)
    ensures p.h == JsRound((b.y2 - b.y1) * height as real)
  {
    PixelRect(
      JsRound(b.x1 * width as real),
      JsRound(b.y1 * height as real),
      JsRound((b.x2 - b.x1) * width as real),
      JsRound((b.y2 - b.y1) * height as real))
  }

  lemma ScaledBounds(f: real, n: nat)
    requires 0.0 <= f <= 1.0
    ensures 0 <= JsRound(f * n as real) <= n
  {
    var m := n as real;
    assert 0.0 <= f * m;
    assert (1.0 - f) * m >= 0.0;
    assert f * m == m - (1.0 - f) * m;
    JsRoundMonotone(0.0, f * n as real);
    JsRoundMonotone(f * n as real, n as real);
    JsRoundOfInt(0);
    JsRoundOfInt(n);
  }

  /** For a well-formed box every pixel value lies within the image: x, w in [0, W] and y, h in [0, H]. */
  lemma ToPixelsBounds(b: BBox, width: nat, height: nat)
    requires WellFormed(b)
    ensures var p := ToPixels(b, width, height);
      && 0 <= p.x <= width && 0 <= p.w <= width
      && 0 <= p.y <= height && 0 <= p.h <= height
  {
    ScaledBounds(b.x1, width);
    ScaledBounds(b.x2 - b.x1, width);
    ScaledBounds(b.y1, height);
    ScaledBounds(b.y2 - b.y1, height);
  }

  /** Independent rounding of the corner and the extent can overshoot the image by one pixel, never more. */
  lemma ToPixelsOvershoot(b: BBox, width: nat, height: nat)
    requires WellFormed(b)
    ensures var p := ToPixels(b, width, height);
      p.x + p.w <= width + 1 && p.y + p.h <= height + 1
  {
  }

  /** The overshoot happens: a box reaching the right edge of a 2-pixel image ends at pixel 3. */
  lemma ToPixelsOvershootExample()
    ensures var p := ToPixels(BBox(0.25, 0.0, 1.0, 1.0), 2, 2);
      WellFormed(BBox(0.25, 0.0, 1.0, 1.0)) && p.x + p.w == 3
  {
    assert JsRound(0.25 * 2.0) == 1;
    assert JsRound((1.0 - 0.25) * 2.0) == 2;
  }

  /** Image metadata as the image library reports it; a dimension may be missing. */
  datatype Metadata = Metadata(width: Option<nat>, height: Option<nat>)

  /** `metadata.width || 1024`: an absent or zero dimension becomes 1024. */
  function DimensionOrDefault(d: Option<nat>): (n: nat)
    ensures n > 0
    ensures d.Some? && d.value > 0 ==> n == d.value
    ensures d.None? || d.value == 0 ==> n == 1024
  {
    if d.Some? && d.value > 0 then d.value else 1024
  }
}
