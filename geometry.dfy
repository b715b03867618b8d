/**
 * Rectangles of Go's image package (Min inclusive, Max exclusive) and the
 * rectangles the cropping engine derives from a region: the centre reference
 * rectangle and the four edge bands.
 */
module Geometry {

  function Min(a: int, b: int): int { if a <= b then a else b }
  function Max(a: int, b: int): int { if a >= b then a else b }
  function Abs(a: int): nat { if a < 0 then -a else a }

  /** An image.Rectangle: the pixels (x, y) with minX <= x < maxX and minY <= y < maxY. */
  datatype Rect = Rect(minX: int, minY: int, maxX: int, maxY: int) {
    function Dx(): int { maxX - minX }
    function Dy(): int { maxY - minY }
    /** Min <= Max in both axes, as every rectangle built by image.Rect is. */
    predicate Canonical() { minX <= maxX && minY <= maxY }
    predicate Positive() { Dx() > 0 && Dy() > 0 }
    predicate Contains(x: int, y: int) { minX <= x < maxX && minY <= y < maxY }
    predicate Within(outer: Rect) {
      outer.minX <= minX && maxX <= outer.maxX && outer.minY <= minY && maxY <= outer.maxY
    }
  }

  /** image.Rect: the rectangle with corners (x0, y0) and (x1, y1), coordinates swapped where needed. */
  function MakeRect(x0: int, y0: int, x1: int, y1: int): (r: Rect)
    ensures r.Canonical()
    ensures r.Dx() == Abs(x1 - x0) && r.Dy() == Abs(y1 - y0)
    ensures x0 <= x1 ==> r.minX == x0 && r.maxX == x1
    ensures y0 <= y1 ==> r.minY == y0 && r.maxY == y1
    ensures x1 < x0 ==> r.minX == x1 && r.maxX == x0
    ensures y1 < y0 ==> r.minY == y1 && r.maxY == y0
  {
    Rect(Min(x0, x1), Min(y0, y1), Max(x0, x1), Max(y0, y1))
  }

  lemma WithinTransitive(a: Rect, b: Rect, c: Rect)
    requires a.Within(b) && b.Within(c)
    ensures a.Within(c)
  {
  }

  /** Every pixel of an inner rectangle is a pixel of the outer one. */
  lemma WithinContains(inner: Rect, outer: Rect, x: int, y: int)
    requires inner.Within(outer) && inner.Contains(x, y)
    ensures outer.Contains(x, y)
  {
  }

  // ---------------------------------------------------------------------------
  // Sides
  // ---------------------------------------------------------------------------

  datatype Side = Top | Bottom | Left | Right

  const AllSides: set<Side> := {Top, Bottom, Left, Right}

  /** The extent of r perpendicular to side s: the height for top and bottom, the width for left and right. */
  function Across(r: Rect, s: Side): int {
    if s == Top || s == Bottom then r.Dy() else r.Dx()
  }

  /** The extent of r along side s. */
  function Along(r: Rect, s: Side): int {
    if s == Top || s == Bottom then r.Dx() else r.Dy()
  }

  /** The coordinate of r that lies on side s. */
  function Coord(r: Rect, s: Side): int {
    match s
    case Top => r.minY
    case Bottom => r.maxY
    case Left => r.minX
    case Right => r.maxX
  }

  /** The direction, along its own axis, in which side s moves when it moves inward. */
  function Inward(s: Side): int {
    if s == Top || s == Left then 1 else -1
  }

  // ---------------------------------------------------------------------------
  // Edge bands and the centre reference rectangle
  // ---------------------------------------------------------------------------

  /** A band thickness: dim / divisor, and at least one pixel. */
  function Thickness(dim: nat, divisor: nat): (t: nat)
    requires divisor >= 1
    ensures t >= 1
    ensures dim >= 1 ==> t <= dim
    ensures dim < divisor ==> t == 1
    ensures dim >= divisor ==> divisor * t <= dim < divisor * t + divisor
  {
    if dim / divisor < 1 then 1 else dim / divisor
  }

  /** The band of thickness t lying against side s of r (cropper.go builds these with image.Rect). */
  function EdgeBand(r: Rect, s: Side, t: int): (b: Rect)
    ensures b.Canonical()
    ensures r.Canonical() && 0 <= t <= Across(r, s) ==>
      && b.Within(r)
      && Across(b, s) == t
      && Along(b, s) == Along(r, s)
      && Coord(b, s) == Coord(r, s)
  {
    match s
    case Top => MakeRect(r.minX, r.minY, r.maxX, r.minY + t)
    case Bottom => MakeRect(r.minX, r.maxY - t, r.maxX, r.maxY)
    case Left => MakeRect(r.minX, r.minY, r.minX + t, r.maxY)
    case Right => MakeRect(r.maxX - t, r.minY, r.maxX, r.maxY)
  }

  /** The 20% margin of a dimension, at least one pixel. */
  function Margin(dim: nat): (m: nat)
    ensures m >= 1
    ensures dim < 5 ==> m == 1
    ensures dim >= 5 ==> 5 * m <= dim < 5 * m + 5
  {
    if dim / 5 < 1 then 1 else dim / 5
  }

  /** The inner 60% of r: r shrunk by Margin on each side, through image.Rect. */
  function Inner(r: Rect): Rect
    requires r.Canonical()
  {
    var mx := Margin(r.Dx());
    var my := Margin(r.Dy());
    MakeRect(r.minX + mx, r.minY + my, r.maxX - mx, r.maxY - my)
  }

  /**
   * The centre reference rectangle: the inner 60% of r, or r itself when that
   * rectangle has no width or no height. Because image.Rect swaps reversed
   * coordinates, a dimension of 1 gives an inner extent of 1 (not a fallback);
   * only a dimension of exactly 2 leaves an empty inner rectangle.
   */
  function Centre(r: Rect): (c: Rect)
    requires r.Canonical()
    ensures c.Canonical()
    ensures r.Positive() ==>
      && c.Positive()
      && c.Within(r)
      && c.minX - r.minX == r.maxX - c.maxX
      && c.minY - r.minY == r.maxY - c.maxY
    ensures r.Dx() >= 3 && r.Dy() != 2 ==> c.minX - r.minX == Margin(r.Dx())
    ensures r.Dy() >= 3 && r.Dx() != 2 ==> c.minY - r.minY == Margin(r.Dy())
    ensures r.Dx() == 1 ==> c.minX == r.minX && c.maxX == r.maxX
    ensures r.Dy() == 1 ==> c.minY == r.minY && c.maxY == r.maxY
    ensures r.Dx() == 2 || r.Dy() == 2 ==> c == r
    ensures r.Positive() ==> (c == r <==> r.Dx() == 2 || r.Dy() == 2 || (r.Dx() == 1 && r.Dy() == 1))
  {
    var inner := Inner(r);
    if inner.Dx() <= 0 || inner.Dy() <= 0 then r else inner
  }
}
