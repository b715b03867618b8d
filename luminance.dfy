/**
 * The luminance sampler: the brightness of one pixel and the average
 * brightness of a rectangular region, in exact real arithmetic.
 */
module Luminance {
  import opened Geometry

  /** A channel as color.Color.RGBA() reports it: 16 bits, alpha-premultiplied. */
  type Channel16 = v: int | 0 <= v < 0x1_0000
  type Channel8 = v: int | 0 <= v < 0x100

  datatype Color = Color(r: Channel16, g: Channel16, b: Channel16, a: Channel16)

  /**
   * An image.Image: its bounds and its At method. At is total, as in Go, where
   * reading outside the bounds yields some colour rather than a failure.
   */
  datatype Image = Image(bounds: Rect, at: (int, int) -> Color)

  /** v >> 8: a 16-bit channel brought down to 0..255. */
  function To8(v: Channel16): (w: Channel8)
    ensures w * 256 <= v < w * 256 + 256
  {
    v / 256
  }

  /** The luma weights 0.299, 0.587 and 0.114 applied to three 8-bit channels. */
  function Weighted(r: Channel8, g: Channel8, b: Channel8): (y: real)
    ensures 0.0 <= y <= 255.0
  {
    (299 * r + 587 * g + 114 * b) as real / 1000.0
  }

  /** calculateBrightness: perceived brightness 0.299 R + 0.587 G + 0.114 B of the 8-bit channels. */
  function Brightness(c: Color): (y: real)
    ensures 0.0 <= y <= 255.0
  {
    Weighted(To8(c.r), To8(c.g), To8(c.b))
  }

  /** The weights sum to one, so a grey pixel's brightness is its grey level. */
  lemma GreyBrightness(c: Color)
    requires To8(c.r) == To8(c.g) == To8(c.b)
    ensures Brightness(c) == To8(c.r) as real
  {
  }

  /** The brightness of every pixel of img, as a map from coordinates to brightness. */
  function Luma(img: Image): (int, int) -> real {
    (x: int, y: int) => Brightness(img.at(x, y))
  }

  // ---------------------------------------------------------------------------
  // Region sums, in the order calculateRegionBrightness visits the pixels
  // ---------------------------------------------------------------------------

  /** Sum of f over the pixels (x, y) with x0 <= x < x1. */
  function RowSum(f: (int, int) -> real, y: int, x0: int, x1: int): real
    decreases x1 - x0
  {
    if x1 <= x0 then 0.0 else RowSum(f, y, x0, x1 - 1) + f(x1 - 1, y)
  }

  /** Sum of f over the rows r.minY <= y < y1 of r. */
  function GridSum(f: (int, int) -> real, r: Rect, y1: int): real
    decreases y1 - r.minY
  {
    if y1 <= r.minY then 0.0 else GridSum(f, r, y1 - 1) + RowSum(f, y1 - 1, r.minX, r.maxX)
  }

  /** The number of pixels the two loops of calculateRegionBrightness visit. */
  function PixelCount(r: Rect): nat {
    Max(0, r.Dy()) * Max(0, r.Dx())
  }

  /** Mean of f over r, or 0 when r holds no pixel. */
  function Mean(f: (int, int) -> real, r: Rect): real {
    var n := PixelCount(r);
    if n == 0 then 0.0 else GridSum(f, r, r.maxY) / n as real
  }

  /** Mean brightness of the pixels of r, or 0 when r holds no pixel. */
  function RegionMean(img: Image, r: Rect): real {
    Mean(Luma(img), r)
  }

  lemma NextRow(rows: int, cols: int)
    ensures rows * cols + cols == (rows + 1) * cols
  {
  }

  /**
   * calculateRegionBrightness: two nested loops accumulate the sum and the
   * count; the result is their quotient, or 0 when no pixel was visited.
   */
  method RegionBrightness(img: Image, r: Rect) returns (mean: real)
    ensures mean == RegionMean(img, r)
  {
    ghost var f := Luma(img);
    ghost var cols := Max(0, r.Dx());
    var sum := 0.0;
    var count := 0;
    var y := r.minY;
    while y < r.maxY
      invariant r.minY <= y && (y <= r.maxY || y == r.minY)
      invariant sum == GridSum(f, r, y)
      invariant count == (y - r.minY) * cols
    {
      var x := r.minX;
      while x < r.maxX
        invariant r.minX <= x && (x <= r.maxX || x == r.minX)
        invariant sum == GridSum(f, r, y) + RowSum(f, y, r.minX, x)
        invariant count == (y - r.minY) * cols + (x - r.minX)
      {
        sum := sum + Brightness(img.at(x, y));
        count := count + 1;
        x := x + 1;
      }
      NextRow(y - r.minY, cols);
      y := y + 1;
    }
    assert count == PixelCount(r);
    if count == 0 {
      return 0.0;
    }
    mean := sum / count as real;
  }

  // ---------------------------------------------------------------------------
  // Properties of the mean
  // ---------------------------------------------------------------------------

  /** f is k on every pixel of r. */
  ghost predicate Flat(f: (int, int) -> real, r: Rect, k: real) {
    forall x, y :: r.Contains(x, y) ==> f(x, y) == k
  }

  /** f is at most g on every pixel of r. */
  ghost predicate Below(f: (int, int) -> real, g: (int, int) -> real, r: Rect) {
    forall x, y :: r.Contains(x, y) ==> f(x, y) <= g(x, y)
  }

  /** f and g agree on every pixel of r. */
  ghost predicate AgreeOn(f: (int, int) -> real, g: (int, int) -> real, r: Rect) {
    forall x, y :: r.Contains(x, y) ==> f(x, y) == g(x, y)
  }

  /** The image whose every pixel has value k. */
  function Const(k: real): (int, int) -> real {
    (x: int, y: int) => k
  }

  /** The number of pixels in the rows r.minY <= y < y1 of r. */
  function Cells(r: Rect, y1: int): int
    decreases y1 - r.minY
  {
    if y1 <= r.minY then 0 else Cells(r, y1 - 1) + r.Dx()
  }

  /** The rows r.minY <= y < y1 hold (y1 - r.minY) * r.Dx() cells. */
  lemma {:induction false} CellsCount(r: Rect, y1: int)
    requires r.minY <= y1
    decreases y1 - r.minY
    ensures Cells(r, y1) == (y1 - r.minY) * r.Dx()
  {
    if y1 > r.minY {
      CellsCount(r, y1 - 1);
      NextRow(y1 - 1 - r.minY, r.Dx());
    }
  }

  lemma {:induction false} BelowRowSum(f: (int, int) -> real, g: (int, int) -> real, r: Rect, y: int, x1: int)
    requires Below(f, g, r) && r.minY <= y < r.maxY && r.minX <= x1 <= r.maxX
    decreases x1 - r.minX
    ensures RowSum(f, y, r.minX, x1) <= RowSum(g, y, r.minX, x1)
  {
    if x1 > r.minX {
      BelowRowSum(f, g, r, y, x1 - 1);
      assert r.Contains(x1 - 1, y);
    }
  }

  lemma {:induction false} BelowGridSum(f: (int, int) -> real, g: (int, int) -> real, r: Rect, y1: int)
    requires Below(f, g, r) && r.Canonical() && r.minY <= y1 <= r.maxY
    decreases y1 - r.minY
    ensures GridSum(f, r, y1) <= GridSum(g, r, y1)
  {
    if y1 > r.minY {
      BelowGridSum(f, g, r, y1 - 1);
      BelowRowSum(f, g, r, y1 - 1, r.maxX);
    }
  }

  /** One more value k added to a sum of n values k. */
  lemma AddConst(sum: real, k: real, n: int, m: int)
    requires sum == k * n as real && m == n + 1
    ensures sum + k == k * m as real
  {
  }

  lemma {:induction false} ConstRowSum(k: real, y: int, x0: int, x1: int)
    requires x0 <= x1
    decreases x1 - x0
    ensures RowSum(Const(k), y, x0, x1) == k * (x1 - x0) as real
  {
    if x1 > x0 {
      ConstRowSum(k, y, x0, x1 - 1);
      AddConst(RowSum(Const(k), y, x0, x1 - 1), k, x1 - 1 - x0, x1 - x0);
    }
  }

  /** One more row of w values k added to a sum of n values k. */
  lemma AddConstRow(sum: real, row: real, k: real, n: int, w: int, m: int)
    requires sum == k * n as real && row == k * w as real && m == n + w
    ensures sum + row == k * m as real
  {
  }

  lemma {:induction false} ConstGridSum(k: real, r: Rect, y1: int)
    requires r.Canonical() && r.minY <= y1
    decreases y1 - r.minY
    ensures GridSum(Const(k), r, y1) == k * Cells(r, y1) as real
  {
    if y1 > r.minY {
      ConstGridSum(k, r, y1 - 1);
      ConstRowSum(k, y1 - 1, r.minX, r.maxX);
      AddConstRow(GridSum(Const(k), r, y1 - 1), RowSum(Const(k), y1 - 1, r.minX, r.maxX), k,
                  Cells(r, y1 - 1), r.Dx(), Cells(r, y1));
    }
  }

  lemma DivideProduct(k: real, n: nat)
    requires n > 0
    ensures (k * n as real) / n as real == k
  {
  }

  /** The mean of a region of a constant image is that constant. */
  lemma ConstMean(k: real, r: Rect)
    requires r.Positive()
    ensures Mean(Const(k), r) == k
  {
    ConstGridSum(k, r, r.maxY);
    CellsCount(r, r.maxY);
    assert PixelCount(r) == Cells(r, r.maxY);
    DivideProduct(k, PixelCount(r));
  }

  lemma DivideMonotone(a: real, b: real, n: nat)
    requires n > 0 && a <= b
    ensures a / n as real <= b / n as real
  {
  }

  /** The mean is monotone in the values it averages. */
  lemma BelowMean(f: (int, int) -> real, g: (int, int) -> real, r: Rect)
    requires r.Canonical() && Below(f, g, r)
    ensures Mean(f, r) <= Mean(g, r)
  {
    if PixelCount(r) > 0 {
      BelowGridSum(f, g, r, r.maxY);
      DivideMonotone(GridSum(f, r, r.maxY), GridSum(g, r, r.maxY), PixelCount(r));
    }
  }

  /** The mean of a non-empty region lies between bounds that hold at each of its pixels. */
  lemma BoundedMean(f: (int, int) -> real, r: Rect, lo: real, hi: real)
    requires r.Positive()
    requires forall x, y :: r.Contains(x, y) ==> lo <= f(x, y) <= hi
    ensures lo <= Mean(f, r) <= hi
  {
    BelowMean(Const(lo), f, r);
    BelowMean(f, Const(hi), r);
    ConstMean(lo, r);
    ConstMean(hi, r);
  }

  /** calculateRegionBrightness never leaves [0, 255]: an empty region gives 0, any other the mean of values in that range. */
  lemma RegionMeanInRange(img: Image, r: Rect)
    ensures 0.0 <= RegionMean(img, r) <= 255.0
  {
    if r.Positive() {
      forall x, y | r.Contains(x, y)
        ensures 0.0 <= Luma(img)(x, y) <= 255.0
      {
        assert Luma(img)(x, y) == Brightness(img.at(x, y));
      }
      BoundedMean(Luma(img), r, 0.0, 255.0);
    }
  }

  /** A non-empty region whose every pixel is k has mean k. */
  lemma FlatMean(f: (int, int) -> real, r: Rect, k: real)
    requires r.Positive() && Flat(f, r, k)
    ensures Mean(f, r) == k
  {
    AgreeMean(f, Const(k), r);
    ConstMean(k, r);
  }

  /** Flatness carries over to every rectangle inside a flat one. */
  lemma FlatWithin(f: (int, int) -> real, r: Rect, inner: Rect, k: real)
    requires Flat(f, r, k) && inner.Within(r)
    ensures Flat(f, inner, k)
  {
    forall x, y | inner.Contains(x, y)
      ensures f(x, y) == k
    {
      WithinContains(inner, r, x, y);
    }
  }

  lemma {:induction false} AgreeRowSum(f: (int, int) -> real, g: (int, int) -> real, r: Rect, y: int, x1: int)
    requires AgreeOn(f, g, r) && r.minY <= y < r.maxY && r.minX <= x1 <= r.maxX
    decreases x1 - r.minX
    ensures RowSum(f, y, r.minX, x1) == RowSum(g, y, r.minX, x1)
  {
    if x1 > r.minX {
      AgreeRowSum(f, g, r, y, x1 - 1);
      assert r.Contains(x1 - 1, y);
    }
  }

  lemma {:induction false} AgreeGridSum(f: (int, int) -> real, g: (int, int) -> real, r: Rect, y1: int)
    requires AgreeOn(f, g, r) && r.minY <= y1 <= r.maxY
    decreases y1 - r.minY
    ensures GridSum(f, r, y1) == GridSum(g, r, y1)
  {
    if y1 > r.minY {
      AgreeGridSum(f, g, r, y1 - 1);
      if r.minX <= r.maxX {
        AgreeRowSum(f, g, r, y1 - 1, r.maxX);
      }
    }
  }

  /** The mean over r depends only on the values at the pixels of r. */
  lemma AgreeMean(f: (int, int) -> real, g: (int, int) -> real, r: Rect)
    requires AgreeOn(f, g, r)
    ensures Mean(f, r) == Mean(g, r)
  {
    if PixelCount(r) > 0 {
      AgreeGridSum(f, g, r, r.maxY);
    }
  }

  /** Agreement carries over to every rectangle inside r. */
  lemma AgreeWithin(f: (int, int) -> real, g: (int, int) -> real, r: Rect, inner: Rect)
    requires AgreeOn(f, g, r) && inner.Within(r)
    ensures AgreeOn(f, g, inner)
  {
    forall x, y | inner.Contains(x, y)
      ensures f(x, y) == g(x, y)
    {
      WithinContains(inner, r, x, y);
    }
  }
}
