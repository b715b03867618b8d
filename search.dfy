/**
 * The crop search engine (findUniformCrop): starting from the image bounds,
 * move the worst-deviating eligible side inward one step at a time until the
 * region is uniform, the crop budget is spent, the worst deviation is within
 * tolerance, or the iteration budget runs out.
 */
module CropSearch {
  import opened Wrappers
  import opened Geometry
  import opened Luminance
  import opened Uniformity

  // ---------------------------------------------------------------------------
  // Budgets and step size
  // ---------------------------------------------------------------------------

  /** Go's int(x) on a float: truncation toward zero. */
  function TruncToInt(x: real): (n: int)
    ensures x >= 0.0 ==> n >= 0 && n as real <= x < n as real + 1.0
    ensures x < 0.0 ==> n <= 0 && n as real - 1.0 < x <= n as real
  {
    if x >= 0.0 then x.Floor else -((-x).Floor)
  }

  /** maxCropWidth and maxCropHeight: int(float64(dim) * maxCropPercent / 100.0). */
  function CropCeiling(dim: nat, maxCropPercent: real): int {
    TruncToInt(dim as real * maxCropPercent / 100.0)
  }

  /** For a percentage in [0, 100] the ceiling is a whole number of pixels between 0 and the dimension. */
  lemma CeilingInRange(dim: nat, maxCropPercent: real)
    ensures 0.0 <= maxCropPercent <= 100.0 ==> 0 <= CropCeiling(dim, maxCropPercent) <= dim
  {
    if 0.0 <= maxCropPercent <= 100.0 {
      ScaledShare(dim as real, maxCropPercent);
      TruncWithin(dim as real * maxCropPercent / 100.0, dim);
    }
  }

  /** For a non-negative percentage the ceiling is that share of the dimension, rounded down. */
  lemma CeilingIsFloor(dim: nat, maxCropPercent: real)
    ensures 0.0 <= maxCropPercent ==>
      CropCeiling(dim, maxCropPercent) as real <= dim as real * maxCropPercent / 100.0
        < CropCeiling(dim, maxCropPercent) as real + 1.0
  {
    if 0.0 <= maxCropPercent {
      ScaledShare(dim as real, maxCropPercent);
    }
  }

  /** Truncating a value in [0, bound] gives a whole number in [0, bound]. */
  lemma TruncWithin(x: real, bound: nat)
    requires 0.0 <= x <= bound as real
    ensures 0 <= TruncToInt(x) <= bound
  {
  }

  /** A share of at least 0% of a non-negative size is non-negative, and at most the size for at most 100%. */
  lemma ScaledShare(size: real, percent: real)
    requires size >= 0.0 && percent >= 0.0
    ensures size * percent / 100.0 >= 0.0
    ensures percent <= 100.0 ==> size * percent / 100.0 <= size
  {
    assert size * percent >= 0.0;
    if percent <= 100.0 {
      assert size * percent <= size * 100.0;
    }
  }

  /** The two crop ceilings, in pixels, that findUniformCrop computes once from the bounds. */
  datatype Limits = Limits(width: int, height: int)

  function CropLimits(bounds: Rect, maxCropPercent: real): (limits: Limits)
    requires bounds.Canonical()
    ensures 0.0 <= maxCropPercent <= 100.0 ==>
      0 <= limits.width <= bounds.Dx() && 0 <= limits.height <= bounds.Dy()
    ensures 0.0 <= maxCropPercent ==>
      limits.width as real <= bounds.Dx() as real * maxCropPercent / 100.0 < limits.width as real + 1.0
    ensures 0.0 <= maxCropPercent ==>
      limits.height as real <= bounds.Dy() as real * maxCropPercent / 100.0 < limits.height as real + 1.0
  {
    CeilingInRange(bounds.Dx(), maxCropPercent);
    CeilingInRange(bounds.Dy(), maxCropPercent);
    CeilingIsFloor(bounds.Dx(), maxCropPercent);
    CeilingIsFloor(bounds.Dy(), maxCropPercent);
    Limits(CropCeiling(bounds.Dx(), maxCropPercent), CropCeiling(bounds.Dy(), maxCropPercent))
  }

  /** The ceiling of the dimension side s cuts into. */
  function Limit(limits: Limits, s: Side): int {
    if s == Top || s == Bottom then limits.height else limits.width
  }

  /** maxIterations: max(width, height) / 2, and at least 100. */
  function MaxIterations(bounds: Rect): (n: nat)
    requires bounds.Canonical()
    ensures n >= 100
    ensures n >= bounds.Dx() / 2 && n >= bounds.Dy() / 2
    ensures n == 100 || n == Max(bounds.Dx(), bounds.Dy()) / 2
  {
    var m := Max(bounds.Dx(), bounds.Dy()) / 2;
    if m < 100 then 100 else m
  }

  /**
   * cropAmount: int(math.Max(1, float64(width + height) / 200)). For a
   * non-negative sum, truncating the float quotient is integer division.
   */
  function CropAmount(r: Rect): (a: int)
    requires r.Canonical()
    ensures a >= 1
    ensures r.Dx() + r.Dy() < 200 ==> a == 1
    ensures r.Dx() + r.Dy() >= 200 ==> a * 200 <= r.Dx() + r.Dy() < a * 200 + 200
  {
    Max(1, (r.Dx() + r.Dy()) / 200)
  }

  /** A smaller rectangle never takes a larger step. */
  lemma CropAmountMonotone(r: Rect, outer: Rect)
    requires r.Canonical() && outer.Canonical() && r.Within(outer)
    ensures CropAmount(r) <= CropAmount(outer)
  {
    var s, t := r.Dx() + r.Dy(), outer.Dx() + outer.Dy();
    assert s <= t;
    assert s / 200 <= t / 200;
  }

  /** The pixels already removed from the dimension that side s cuts into. */
  function Removed(bounds: Rect, r: Rect, s: Side): int {
    Across(bounds, s) - Across(r, s)
  }

  /** A side may move while its dimension has lost less than that dimension's ceiling. */
  predicate Eligible(bounds: Rect, limits: Limits, r: Rect, s: Side)
  {
    Removed(bounds, r, s) < Limit(limits, s)
  }

  /** Both ceilings reached: the search cannot crop any more. */
  predicate BudgetSpent(bounds: Rect, limits: Limits, r: Rect)
  {
    bounds.Dx() - r.Dx() >= limits.width
    && bounds.Dy() - r.Dy() >= limits.height
  }

  /** Each dimension has lost nothing, or less than its ceiling plus one full step. */
  predicate WithinBudget(bounds: Rect, limits: Limits, r: Rect)
    requires bounds.Canonical()
  {
    && (bounds.Dx() - r.Dx() == 0
        || bounds.Dx() - r.Dx() < limits.width + CropAmount(bounds))
    && (bounds.Dy() - r.Dy() == 0
        || bounds.Dy() - r.Dy() < limits.height + CropAmount(bounds))
  }

  // ---------------------------------------------------------------------------
  // One round of the search, as a specification
  // ---------------------------------------------------------------------------

  /** The absolute deviation of the 5% band against side s from the centre brightness. */
  function Deviation(img: Image, r: Rect, s: Side): (d: real)
    requires r.Canonical()
    ensures d >= 0.0
  {
    RealAbs(BandBrightness(img, r, s, 20) - CentreBrightness(img, r))
  }

  /**
   * The edges map of findUniformCrop: the deviation of top, bottom, left and
   * right, each entered when its dimension is still below its ceiling.
   */
  function SearchDeviations(img: Image, bounds: Rect, limits: Limits, r: Rect): map<Side, real>
    requires r.Canonical()
  {
    var none: map<Side, real> := map[];
    var withTop := if Eligible(bounds, limits, r, Top) then none[Top := Deviation(img, r, Top)] else none;
    var withBottom := if Eligible(bounds, limits, r, Bottom) then withTop[Bottom := Deviation(img, r, Bottom)] else withTop;
    var withLeft := if Eligible(bounds, limits, r, Left) then withBottom[Left := Deviation(img, r, Left)] else withBottom;
    if Eligible(bounds, limits, r, Right) then withLeft[Right := Deviation(img, r, Right)] else withLeft
  }

  /** The edges map holds the deviation of every eligible side, and of no other side. */
  lemma SearchDeviationsEntries(img: Image, bounds: Rect, limits: Limits, r: Rect)
    requires r.Canonical()
    ensures forall s :: s in SearchDeviations(img, bounds, limits, r) <==> Eligible(bounds, limits, r, s)
    ensures forall s :: s in SearchDeviations(img, bounds, limits, r) ==>
      SearchDeviations(img, bounds, limits, r)[s] == Deviation(img, r, s)
  {
    var edges := SearchDeviations(img, bounds, limits, r);
    forall s
      ensures s in edges <==> Eligible(bounds, limits, r, s)
      ensures s in edges ==> edges[s] == Deviation(img, r, s)
    {
      match s
      case Top =>
      case Bottom =>
      case Left =>
      case Right =>
    }
  }

  /**
   * The edges map is empty exactly when both ceilings are reached, so the
   * `len(edges) == 0` exit of findUniformCrop, which follows the budget exit, never fires.
   */
  lemma SearchDeviationsEmpty(img: Image, bounds: Rect, limits: Limits, r: Rect)
    requires r.Canonical()
    ensures SearchDeviations(img, bounds, limits, r) == map[] <==> BudgetSpent(bounds, limits, r)
  {
    var edges := SearchDeviations(img, bounds, limits, r);
    if !BudgetSpent(bounds, limits, r) {
      assert Top in edges || Left in edges;
    }
  }

  /** A bound on the four sides' entries is a bound on every entry. */
  lemma BoundEverySide(edges: map<Side, real>, m: real)
    requires DeviationOf(edges, Top) <= m && DeviationOf(edges, Bottom) <= m
    requires DeviationOf(edges, Left) <= m && DeviationOf(edges, Right) <= m
    ensures forall s :: s in edges ==> edges[s] <= m
  {
    forall s | s in edges
      ensures edges[s] <= m
    {
      match s
      case Top =>
      case Bottom =>
      case Left =>
      case Right =>
    }
  }

  /** A map holding the deviation of exactly the eligible sides is the edges map. */
  lemma DeviationsByEntries(img: Image, bounds: Rect, limits: Limits, r: Rect, edges: map<Side, real>)
    requires r.Canonical()
    requires forall s :: s in edges <==> Eligible(bounds, limits, r, s)
    requires forall s :: s in edges ==> edges[s] == Deviation(img, r, s)
    ensures edges == SearchDeviations(img, bounds, limits, r)
  {
    var spec := SearchDeviations(img, bounds, limits, r);
    SearchDeviationsEntries(img, bounds, limits, r);
    assert edges.Keys == spec.Keys;
  }

  function RealMax(a: real, b: real): real { if a >= b then a else b }

  function DeviationOf(edges: map<Side, real>, s: Side): real {
    if s in edges then edges[s] else 0.0
  }

  /** maxDeviation after the scan: the largest value in the map, or 0 when none is larger. */
  function MaxDeviation(edges: map<Side, real>): (m: real)
    ensures m >= 0.0
    ensures forall s :: s in edges ==> edges[s] <= m
    ensures m == 0.0 || exists s :: s in edges && edges[s] == m
  {
    var m := RealMax(RealMax(RealMax(RealMax(0.0, DeviationOf(edges, Top)), DeviationOf(edges, Bottom)),
                             DeviationOf(edges, Left)), DeviationOf(edges, Right));
    BoundEverySide(edges, m);
    m
  }

  /** The sides the scan may end on: those of strictly positive maximal deviation. */
  function WorstSides(edges: map<Side, real>): (w: set<Side>)
    ensures forall s :: s in w <==> s in edges && edges[s] == MaxDeviation(edges) > 0.0
    ensures w == {} <==> MaxDeviation(edges) == 0.0
  {
    var m := MaxDeviation(edges);
    var w := set s | s in edges && m > 0.0 && edges[s] == m;
    assert forall s :: s in edges && edges[s] == m && m > 0.0 ==> s in w;
    w
  }

  /**
   * The tolerance exit of findUniformCrop: maxDeviation / centre * 100 <= tolerance.
   * For a zero centre the float quotient is +Inf or NaN, and neither passes.
   */
  function WithinTolerance(deviation: real, centre: real, tolerance: real): (ok: bool)
    ensures centre > 0.0 ==> (ok <==> deviation * 100.0 <= tolerance * centre)
    ensures centre == 0.0 ==> !ok
  {
    ScaledAbove(deviation, centre, tolerance);
    centre != 0.0 && deviation / centre * 100.0 <= tolerance
  }

  datatype Verdict = Stop | Shift(choices: set<Side>)

  /**
   * What one iteration does with rectangle r: stop (uniform, budget spent, or
   * worst deviation within tolerance), or shift one of the worst sides. An
   * empty choice means every eligible deviation is 0 and Go's maxEdge stays "".
   */
  function Decide(img: Image, bounds: Rect, tolerance: real, limits: Limits, r: Rect): (v: Verdict)
    requires r.Canonical()
    ensures v.Shift? ==> forall s :: s in v.choices <==>
      && Eligible(bounds, limits, r, s)
      && Deviation(img, r, s) > 0.0
      && forall t :: Eligible(bounds, limits, r, t) ==> Deviation(img, r, t) <= Deviation(img, r, s)
  {
    if IsUniform(img, r, tolerance) then Stop
    else if BudgetSpent(bounds, limits, r) then Stop
    else
      var edges := SearchDeviations(img, bounds, limits, r);
      if WithinTolerance(MaxDeviation(edges), CentreBrightness(img, r), tolerance) then Stop
      else
        SearchDeviationsEntries(img, bounds, limits, r);
        Shift(WorstSides(edges))
  }

  /** The side the scan ends on is one of the choices, or none when there is no choice. */
  predicate Picks(choices: set<Side>, move: Option<Side>) {
    if choices == {} then move == None else move.Some? && move.value in choices
  }

  /** The switch on maxEdge: move the chosen side inward by amount; no side when maxEdge is "". */
  function Shrink(r: Rect, move: Option<Side>, amount: int): (next: Rect)
    ensures move == None ==> next == r
    ensures move.Some? ==> Coord(next, move.value) == Coord(r, move.value) + Inward(move.value) * amount
    ensures move.Some? ==> forall s :: s != move.value ==> Coord(next, s) == Coord(r, s)
    ensures move.Some? ==> Across(next, move.value) == Across(r, move.value) - amount
    ensures move.Some? ==> Along(next, move.value) == Along(r, move.value)
    ensures amount >= 0 ==> next.Within(r)
  {
    match move
    case None => r
    case Some(Top) => r.(minY := r.minY + amount)
    case Some(Bottom) => r.(maxY := r.maxY - amount)
    case Some(Left) => r.(minX := r.minX + amount)
    case Some(Right) => r.(maxX := r.maxX - amount)
  }

  /** One completed iteration: prev did not stop the search, move is a worst side, next is prev shrunk on it. */
  predicate Round(img: Image, bounds: Rect, tolerance: real, limits: Limits,
                  prev: Rect, move: Option<Side>, next: Rect)
  {
    && prev.Canonical()
    && var verdict := Decide(img, bounds, tolerance, limits, prev);
    && verdict.Shift?
    && Picks(verdict.choices, move)
    && next == Shrink(prev, move, CropAmount(prev))
  }

  /** Every step of trace is a round, moves[k] taking trace[k] to trace[k + 1]. */
  ghost predicate Rounds(img: Image, bounds: Rect, tolerance: real, limits: Limits,
                         trace: seq<Rect>, moves: seq<Option<Side>>)
  {
    Chain(RoundOf(img, bounds, tolerance, limits), trace, moves)
  }

  /** Round, as a relation between a rectangle, a move and the next rectangle. */
  ghost function RoundOf(img: Image, bounds: Rect, tolerance: real, limits: Limits): (Rect, Option<Side>, Rect) -> bool {
    (prev, move, next) => Round(img, bounds, tolerance, limits, prev, move, next)
  }

  /** moves[k] takes trace[k] to trace[k + 1] by step, for every k. */
  ghost predicate Chain(step: (Rect, Option<Side>, Rect) -> bool, trace: seq<Rect>, moves: seq<Option<Side>>) {
    && |trace| == |moves| + 1
    && forall k {:trigger moves[k]} :: 0 <= k < |moves| ==> step(trace[k], moves[k], trace[k + 1])
  }

  /** A chain followed by one more step from its last rectangle is a chain. */
  lemma ChainExtend(step: (Rect, Option<Side>, Rect) -> bool, trace: seq<Rect>, moves: seq<Option<Side>>,
                    move: Option<Side>, next: Rect)
    requires Chain(step, trace, moves)
    requires step(trace[|moves|], move, next)
    ensures Chain(step, trace + [next], moves + [move])
  {
    var trace', moves' := trace + [next], moves + [move];
    forall k | 0 <= k < |moves'|
      ensures step(trace'[k], moves'[k], trace'[k + 1])
    {
      if k < |moves| {
        assert trace'[k] == trace[k] && moves'[k] == moves[k] && trace'[k + 1] == trace[k + 1];
      }
    }
  }

  /** The three exits of an iteration are the three ways Decide stops. */
  lemma StopWhenUniform(img: Image, bounds: Rect, tolerance: real, limits: Limits, r: Rect)
    requires r.Canonical() && IsUniform(img, r, tolerance)
    ensures Decide(img, bounds, tolerance, limits, r) == Stop
  {
  }

  lemma StopWhenSpent(img: Image, bounds: Rect, tolerance: real, limits: Limits, r: Rect)
    requires r.Canonical() && BudgetSpent(bounds, limits, r)
    ensures Decide(img, bounds, tolerance, limits, r) == Stop
  {
  }

  lemma StopWhenWithinTolerance(img: Image, bounds: Rect, tolerance: real, limits: Limits,
                                r: Rect, centre: real, edges: map<Side, real>, worst: real)
    requires r.Canonical()
    requires centre == CentreBrightness(img, r)
    requires edges == SearchDeviations(img, bounds, limits, r)
    requires worst == MaxDeviation(edges) && WithinTolerance(worst, centre, tolerance)
    ensures Decide(img, bounds, tolerance, limits, r) == Stop
  {
  }

  /**
   * An iteration that passes all three exits and shrinks r on a side the
   * scan may end on completes a round.
   */
  lemma RoundFromScan(img: Image, bounds: Rect, tolerance: real, limits: Limits,
                      r: Rect, centre: real, edges: map<Side, real>, move: Option<Side>, worst: real)
    requires r.Canonical()
    requires !IsUniform(img, r, tolerance) && !BudgetSpent(bounds, limits, r)
    requires centre == CentreBrightness(img, r)
    requires edges == SearchDeviations(img, bounds, limits, r)
    requires worst == MaxDeviation(edges) && Picks(WorstSides(edges), move)
    requires !WithinTolerance(worst, centre, tolerance)
    ensures Round(img, bounds, tolerance, limits, r, move, Shrink(r, move, CropAmount(r)))
  {
  }

  // ---------------------------------------------------------------------------
  // What a round guarantees
  // ---------------------------------------------------------------------------

  /**
   * A round that moves a side moves an eligible side of maximal, positive
   * deviation, by exactly CropAmount(prev), and leaves the other three
   * coordinates as they were.
   */
  lemma RoundMovesOneWorstSide(img: Image, bounds: Rect, tolerance: real, limits: Limits,
                               prev: Rect, s: Side, next: Rect)
    requires Round(img, bounds, tolerance, limits, prev, Some(s), next)
    ensures !IsUniform(img, prev, tolerance)
    ensures Eligible(bounds, limits, prev, s)
    ensures Deviation(img, prev, s) > 0.0
    ensures forall t :: Eligible(bounds, limits, prev, t) ==> Deviation(img, prev, t) <= Deviation(img, prev, s)
    ensures Coord(next, s) == Coord(prev, s) + Inward(s) * CropAmount(prev)
    ensures forall t :: t != s ==> Coord(next, t) == Coord(prev, t)
  {
    var edges := SearchDeviations(img, bounds, limits, prev);
    SearchDeviationsEntries(img, bounds, limits, prev);
    assert s in WorstSides(edges);
    forall t | Eligible(bounds, limits, prev, t)
      ensures Deviation(img, prev, t) <= Deviation(img, prev, s)
    {
      assert t in edges;
    }
  }

  /** A round that moves no side leaves the rectangle as it was, and every eligible deviation is 0. */
  lemma IdleRound(img: Image, bounds: Rect, tolerance: real, limits: Limits, prev: Rect, next: Rect)
    requires Round(img, bounds, tolerance, limits, prev, None, next)
    ensures next == prev
    ensures forall t :: Eligible(bounds, limits, prev, t) ==> Deviation(img, prev, t) == 0.0
  {
    var edges := SearchDeviations(img, bounds, limits, prev);
    SearchDeviationsEntries(img, bounds, limits, prev);
    forall t | Eligible(bounds, limits, prev, t)
      ensures Deviation(img, prev, t) == 0.0
    {
      assert t in edges;
    }
  }

  /**
   * Idle rounds only happen when the centre is black or the tolerance is
   * negative: with a lit centre and tolerance >= 0, a worst deviation of 0 is
   * within tolerance and the search stops instead.
   */
  lemma NoIdleRoundWithLitCentre(img: Image, bounds: Rect, tolerance: real, limits: Limits,
                                 prev: Rect, move: Option<Side>, next: Rect)
    requires Round(img, bounds, tolerance, limits, prev, move, next)
    requires tolerance >= 0.0 && CentreBrightness(img, prev) > 0.0
    ensures move.Some?
  {
    var edges := SearchDeviations(img, bounds, limits, prev);
    var c := CentreBrightness(img, prev);
    assert 0.0 / c * 100.0 == 0.0;
    if MaxDeviation(edges) == 0.0 {
      assert WithinTolerance(0.0, c, tolerance);
    }
  }

  // ---------------------------------------------------------------------------
  // The search itself
  // ---------------------------------------------------------------------------

  /** The centre reference brightness of findUniformCrop, falling back to r itself. */
  method MeasureCentre(img: Image, r: Rect) returns (centre: real)
    requires r.Canonical()
    ensures centre == CentreBrightness(img, r)
  {
    var marginX := Margin(r.Dx());
    var marginY := Margin(r.Dy());
    var inner := MakeRect(r.minX + marginX, r.minY + marginY, r.maxX - marginX, r.maxY - marginY);
    if inner.Dx() <= 0 || inner.Dy() <= 0 {
      centre := RegionBrightness(img, r);
    } else {
      centre := RegionBrightness(img, inner);
    }
  }

  /** The 5% band of side s and its absolute deviation from centre. */
  method MeasureSide(img: Image, r: Rect, s: Side, centre: real) returns (deviation: real)
    requires r.Canonical() && centre == CentreBrightness(img, r)
    ensures deviation == Deviation(img, r, s)
  {
    var sampleWidth := Thickness(r.Dx(), 20);
    var sampleHeight := Thickness(r.Dy(), 20);
    var band;
    match s {
      case Top =>
        band := MakeRect(r.minX, r.minY, r.maxX, r.minY + sampleHeight);
        assert band == SideBand(r, Top, 20);
      case Bottom =>
        band := MakeRect(r.minX, r.maxY - sampleHeight, r.maxX, r.maxY);
        assert band == SideBand(r, Bottom, 20);
      case Left =>
        band := MakeRect(r.minX, r.minY, r.minX + sampleWidth, r.maxY);
        assert band == SideBand(r, Left, 20);
      case Right =>
        band := MakeRect(r.maxX - sampleWidth, r.minY, r.maxX, r.maxY);
        assert band == SideBand(r, Right, 20);
    }
    var brightness := RegionBrightness(img, band);
    assert brightness == BandBrightness(img, r, s, 20);
    deviation := RealAbs(brightness - centre);
  }

  /** The edge measurement of findUniformCrop: fill the edges map with the deviation of every side whose dimension is below its ceiling. */
  method MeasureEdges(img: Image, bounds: Rect, limits: Limits, r: Rect, centre: real)
    returns (edges: map<Side, real>)
    requires r.Canonical() && centre == CentreBrightness(img, r)
    ensures edges == SearchDeviations(img, bounds, limits, r)
  {
    var maxCropWidth, maxCropHeight := limits.width, limits.height;
    var croppedWidth := bounds.Dx() - r.Dx();
    var croppedHeight := bounds.Dy() - r.Dy();
    ghost var tall := croppedHeight < maxCropHeight;
    ghost var wide := croppedWidth < maxCropWidth;
    assert Eligible(bounds, limits, r, Top) == tall == Eligible(bounds, limits, r, Bottom);
    assert Eligible(bounds, limits, r, Left) == wide == Eligible(bounds, limits, r, Right);
    edges := map[];
    if croppedHeight < maxCropHeight {
      var d := MeasureSide(img, r, Top, centre);
      edges := edges[Top := d];
    }
    if croppedHeight < maxCropHeight {
      var d := MeasureSide(img, r, Bottom, centre);
      edges := edges[Bottom := d];
    }
    assert forall s :: s in edges <==> tall && (s == Top || s == Bottom);
    assert forall s :: s in edges ==> edges[s] == Deviation(img, r, s);
    if croppedWidth < maxCropWidth {
      var d := MeasureSide(img, r, Left, centre);
      edges := edges[Left := d];
    }
    if croppedWidth < maxCropWidth {
      var d := MeasureSide(img, r, Right, centre);
      edges := edges[Right := d];
    }
    assert forall s :: s in edges <==> (tall && (s == Top || s == Bottom)) || (wide && (s == Left || s == Right));
    assert forall s :: s in edges ==> edges[s] == Deviation(img, r, s);
    DeviationsByEntries(img, bounds, limits, r, edges);
  }

  /**
   * The maximum scan of findUniformCrop: range over the edges map, in whatever order Go's map
   * iteration yields, keeping the first deviation strictly larger than the
   * largest so far.
   */
  method PickWorst(edges: map<Side, real>) returns (move: Option<Side>, worst: real)
    ensures worst == MaxDeviation(edges)
    ensures Picks(WorstSides(edges), move)
  {
    move, worst := None, 0.0;
    var pending := edges.Keys;
    while pending != {}
      invariant pending <= edges.Keys
      invariant worst >= 0.0
      invariant forall s :: s in edges && s !in pending ==> edges[s] <= worst
      invariant move == None ==> worst == 0.0
      invariant move.Some? ==> move.value in edges && edges[move.value] == worst > 0.0
      decreases pending
    {
      var s :| s in pending;
      if edges[s] > worst {
        move, worst := Some(s), edges[s];
      }
      pending := pending - {s};
    }
    var m := MaxDeviation(edges);
    assert worst <= m;
    if m != 0.0 {
      var s :| s in edges && edges[s] == m;
      assert m <= worst;
    }
  }

  /**
   * Moving an eligible side inward by CropAmount keeps the rectangle inside
   * the bounds, and each dimension within its ceiling plus one step of the
   * original size.
   */
  lemma ShrinkWithinBudget(bounds: Rect, limits: Limits, r: Rect, move: Option<Side>)
    requires bounds.Canonical() && r.Canonical() && r.Within(bounds)
    requires WithinBudget(bounds, limits, r)
    requires move.Some? ==> Eligible(bounds, limits, r, move.value)
    ensures Shrink(r, move, CropAmount(r)).Within(bounds)
    ensures Shrink(r, move, CropAmount(r)).Canonical() ==> WithinBudget(bounds, limits, Shrink(r, move, CropAmount(r)))
  {
    CropAmountMonotone(r, bounds);
    WithinTransitive(Shrink(r, move, CropAmount(r)), r, bounds);
  }

  datatype Outcome = Done | Moved(move: Option<Side>, next: Rect)

  /**
   * The body of findUniformCrop's loop up to its sanity check: either one of
   * the three exits fires, or the worst side is moved inward by cropAmount.
   */
  method Iterate(img: Image, bounds: Rect, tolerance: real, limits: Limits, r: Rect,
                 ghost trace: seq<Rect>, ghost moves: seq<Option<Side>>)
    returns (outcome: Outcome, ghost trace': seq<Rect>, ghost moves': seq<Option<Side>>)
    requires r.Canonical()
    requires Rounds(img, bounds, tolerance, limits, trace, moves) && trace[|moves|] == r
    ensures outcome.Done? ==> Decide(img, bounds, tolerance, limits, r) == Stop && trace' == trace && moves' == moves
    ensures outcome.Moved? ==> outcome.next == Shrink(r, outcome.move, CropAmount(r))
    ensures outcome.Moved? && outcome.move.Some? ==> Eligible(bounds, limits, r, outcome.move.value)
    ensures outcome.Moved? ==>
      && trace' == trace + [outcome.next] && moves' == moves + [outcome.move]
      && Rounds(img, bounds, tolerance, limits, trace', moves')
  {
    if IsUniform(img, r, tolerance) {
      StopWhenUniform(img, bounds, tolerance, limits, r);
      return Done, trace, moves;
    }
    var currentWidth, currentHeight := r.Dx(), r.Dy();
    var croppedWidth, croppedHeight := bounds.Dx() - currentWidth, bounds.Dy() - currentHeight;
    if croppedWidth >= limits.width && croppedHeight >= limits.height {
      StopWhenSpent(img, bounds, tolerance, limits, r);
      return Done, trace, moves;
    }
    var centre := MeasureCentre(img, r);
    var edges := MeasureEdges(img, bounds, limits, r, centre);
    // Some side is eligible here, so the `len(edges) == 0` exit never fires.
    SearchDeviationsEmpty(img, bounds, limits, r);
    assert edges != map[];
    var move, worst := PickWorst(edges);
    if WithinTolerance(worst, centre, tolerance) {
      StopWhenWithinTolerance(img, bounds, tolerance, limits, r, centre, edges, worst);
      return Done, trace, moves;
    }
    var cropAmount := CropAmount(r);
    var next := Shrink(r, move, cropAmount);
    RoundFromScan(img, bounds, tolerance, limits, r, centre, edges, move, worst);
    if move.Some? {
      RoundMovesOneWorstSide(img, bounds, tolerance, limits, r, move.value, next);
    }
    ChainExtend(RoundOf(img, bounds, tolerance, limits), trace, moves, move, next);
    outcome, trace', moves' := Moved(move, next), trace + [next], moves + [move];
  }

  /**
   * findUniformCrop. Besides the rectangle and whether the search failed, it
   * returns as ghost values the rectangles it went through and the side each
   * iteration moved, so that its result can be stated round by round.
   */
  method FindUniformCrop(img: Image, bounds: Rect, tolerance: real, maxCropPercent: real)
    returns (r: Rect, failed: bool, ghost trace: seq<Rect>, ghost moves: seq<Option<Side>>)
    requires bounds.Canonical()
    ensures Rounds(img, bounds, tolerance, CropLimits(bounds, maxCropPercent), trace, moves) && trace[0] == bounds
    ensures |moves| <= MaxIterations(bounds)
    ensures forall k :: 0 < k < |moves| ==> trace[k].Positive()
    ensures failed ==> r == bounds && |moves| > 0 && !trace[|moves|].Positive()
    ensures !failed ==> r == trace[|moves|] && r.Canonical()
    ensures !failed ==> Decide(img, bounds, tolerance, CropLimits(bounds, maxCropPercent), r) == Stop || |moves| == MaxIterations(bounds)
    ensures !failed ==> r.Within(bounds) && (r == bounds || r.Positive())
    ensures !failed ==> WithinBudget(bounds, CropLimits(bounds, maxCropPercent), r)
  {
    var width, height := bounds.Dx(), bounds.Dy();
    var limits := CropLimits(bounds, maxCropPercent);
    var maxCropWidth, maxCropHeight := limits.width, limits.height;
    r, failed := bounds, false;
    trace, moves := [bounds], [];
    var maxIterations := MaxIterations(bounds);
    var i := 0;
    while i < maxIterations
      invariant 0 <= i <= maxIterations
      invariant Rounds(img, bounds, tolerance, limits, trace, moves)
      invariant |moves| == i && trace[0] == bounds && trace[i] == r
      invariant forall k :: 0 < k <= i ==> trace[k].Positive()
      invariant !failed
      invariant r.Within(bounds) && (r == bounds || r.Positive())
      invariant WithinBudget(bounds, limits, r)
    {
      var outcome;
      outcome, trace, moves := Iterate(img, bounds, tolerance, limits, r, trace, moves);
      if outcome.Done? {
        return;
      }
      var move, next := outcome.move, outcome.next;
      if next.Dx() <= 0 || next.Dy() <= 0 {
        r, failed := bounds, true;
        return;
      }
      ShrinkWithinBudget(bounds, limits, r, move);
      r := next;
      i := i + 1;
    }
  }
}
