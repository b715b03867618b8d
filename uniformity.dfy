/**
 * The uniformity evaluator (isUniform): the four edge bands of a region are
 * compared with the brightness of its centre reference rectangle.
 */
module Uniformity {
  import opened Geometry
  import opened Luminance

  function RealAbs(a: real): real { if a < 0.0 then -a else a }

  /** The band against side s of r, dim / divisor pixels thick and at least one. */
  function SideBand(r: Rect, s: Side, divisor: nat): Rect
    requires r.Canonical() && divisor >= 1
  {
    EdgeBand(r, s, Thickness(Across(r, s), divisor))
  }

  /** Inside a region with pixels, every band is a non-empty rectangle flush against its side. */
  lemma SideBandInside(r: Rect, s: Side, divisor: nat)
    requires r.Positive() && divisor >= 1
    ensures SideBand(r, s, divisor).Positive() && SideBand(r, s, divisor).Within(r)
    ensures Coord(SideBand(r, s, divisor), s) == Coord(r, s)
    ensures Along(SideBand(r, s, divisor), s) == Along(r, s)
  {
  }

  function BandBrightness(img: Image, r: Rect, s: Side, divisor: nat): real
    requires r.Canonical() && divisor >= 1
  {
    RegionMean(img, SideBand(r, s, divisor))
  }

  function CentreBrightness(img: Image, r: Rect): real
    requires r.Canonical()
  {
    RegionMean(img, Centre(r))
  }

  /**
   * The per-edge test of isUniform: |edge - centre| / centre * 100 > tolerance.
   * For a zero centre the float division gives +Inf when the edge is not zero
   * (which exceeds any tolerance) and NaN when it is (which exceeds none).
   */
  function Exceeds(edge: real, centre: real, tolerance: real): (exceeds: bool)
    ensures centre > 0.0 ==> (exceeds <==> RealAbs(edge - centre) * 100.0 > tolerance * centre)
    ensures centre == 0.0 ==> (exceeds <==> edge != 0.0)
  {
    if centre == 0.0 then edge != 0.0
    else
      ScaledAbove(RealAbs(edge - centre), centre, tolerance);
      RealAbs(edge - centre) / centre * 100.0 > tolerance
  }

  /** For a positive centre, a percentage above tolerance is a deviation above tolerance * centre / 100. */
  lemma ScaledAbove(d: real, centre: real, tolerance: real)
    ensures centre > 0.0 ==> (d / centre * 100.0 > tolerance <==> d * 100.0 > tolerance * centre)
  {
    if centre > 0.0 {
      assert d / centre * 100.0 * centre == d * 100.0;
      if d * 100.0 > tolerance * centre {
        assert d / centre * 100.0 > tolerance;
      }
    }
  }

  /** isUniform: the top, bottom, left and right 10% bands, checked in that order. */
  function IsUniform(img: Image, r: Rect, tolerance: real): (uniform: bool)
    requires r.Canonical()
    ensures uniform <==> forall s :: s in AllSides ==>
      !Exceeds(BandBrightness(img, r, s, 10), CentreBrightness(img, r), tolerance)
  {
    var centre := CentreBrightness(img, r);
    if Exceeds(BandBrightness(img, r, Top, 10), centre, tolerance) then false
    else if Exceeds(BandBrightness(img, r, Bottom, 10), centre, tolerance) then false
    else if Exceeds(BandBrightness(img, r, Left, 10), centre, tolerance) then false
    else if Exceeds(BandBrightness(img, r, Right, 10), centre, tolerance) then false
    else true
  }

  /**
   * With a centre of positive brightness, a region is uniform exactly when each
   * edge band deviates from the centre by at most tolerance percent of it.
   */
  lemma UniformIffWithinTolerance(img: Image, r: Rect, tolerance: real)
    requires r.Canonical() && CentreBrightness(img, r) > 0.0
    ensures IsUniform(img, r, tolerance) <==> forall s :: s in AllSides ==>
      RealAbs(BandBrightness(img, r, s, 10) - CentreBrightness(img, r)) * 100.0
        <= tolerance * CentreBrightness(img, r)
  {
  }

  /** With a black centre, a region is uniform exactly when all four bands are black too. */
  lemma UniformWithBlackCentre(img: Image, r: Rect, tolerance: real)
    requires r.Canonical() && CentreBrightness(img, r) == 0.0
    ensures IsUniform(img, r, tolerance) <==> forall s :: s in AllSides ==> BandBrightness(img, r, s, 10) == 0.0
  {
  }

  /** A region with pixels whose every pixel has the same brightness is uniform for every tolerance >= 0. */
  lemma FlatIsUniform(img: Image, r: Rect, k: real, tolerance: real)
    requires r.Positive() && Flat(Luma(img), r, k) && tolerance >= 0.0
    ensures IsUniform(img, r, tolerance)
  {
    FlatWithin(Luma(img), r, Centre(r), k);
    FlatMean(Luma(img), Centre(r), k);
    forall s | s in AllSides
      ensures !Exceeds(BandBrightness(img, r, s, 10), CentreBrightness(img, r), tolerance)
    {
      SideBandInside(r, s, 10);
      FlatWithin(Luma(img), r, SideBand(r, s, 10), k);
      FlatMean(Luma(img), SideBand(r, s, 10), k);
    }
  }

  /** isUniform reads no pixel outside the region: images that agree on it agree on the verdict. */
  lemma UniformIsLocal(img1: Image, img2: Image, r: Rect, tolerance: real)
    requires r.Positive() && AgreeOn(Luma(img1), Luma(img2), r)
    ensures IsUniform(img1, r, tolerance) == IsUniform(img2, r, tolerance)
  {
    AgreeWithin(Luma(img1), Luma(img2), r, Centre(r));
    AgreeMean(Luma(img1), Luma(img2), Centre(r));
    forall s | s in AllSides
      ensures BandBrightness(img1, r, s, 10) == BandBrightness(img2, r, s, 10)
    {
      SideBandInside(r, s, 10);
      AgreeWithin(Luma(img1), Luma(img2), r, SideBand(r, s, 10));
      AgreeMean(Luma(img1), Luma(img2), SideBand(r, s, 10));
    }
  }
}
