/** When a filesystem fills up: a least-squares line through its used bytes,
    extended to its size. Times are whole microseconds, the arithmetic is exact. */
module DiskForecast {
  import opened Wrappers
  import opened Sequences

  // ---- Sums ------------------------------------------------------------------------

  datatype Point = Point(x: real, y: real)

  function Sum(f: Point -> real, points: seq<Point>): real {
    if points == [] then 0.0 else Sum(f, points[..|points| - 1]) + f(points[|points| - 1])
  }

  lemma {:induction false} SumCombined(f: Point -> real, g: Point -> real, h: Point -> real, c: real,
                                       points: seq<Point>)
    requires forall p :: p in points ==> f(p) == g(p) + c * h(p)
    ensures Sum(f, points) == Sum(g, points) + c * Sum(h, points)
    decreases |points|
  {
    if points != [] {
      var before, p := points[..|points| - 1], points[|points| - 1];
      SumCombined(f, g, h, c, before);
      assert p in points;
    }
  }

  lemma {:induction false} SumAtLeast(f: Point -> real, g: Point -> real, points: seq<Point>)
    requires forall p :: p in points ==> f(p) >= g(p)
    ensures Sum(f, points) >= Sum(g, points)
    ensures Sum(f, points) == Sum(g, points) ==> forall p :: p in points ==> f(p) == g(p)
  {
    if points != [] {
      var before, p := points[..|points| - 1], points[|points| - 1];
      assert points == before + [p];
      SumAtLeast(f, g, before);
      assert p in points;
    }
  }

  lemma {:induction false} SumConstant(f: Point -> real, c: real, points: seq<Point>)
    requires forall p :: p in points ==> f(p) == c
    ensures Sum(f, points) == |points| as real * c
  {
    if points != [] {
      SumConstant(f, c, points[..|points| - 1]);
      assert points[|points| - 1] in points;
    }
  }

  function X(): Point -> real { (p: Point) => p.x }
  function Y(): Point -> real { (p: Point) => p.y }
  function Zero(): Point -> real { (p: Point) => 0.0 }
  function One(): Point -> real { (p: Point) => 1.0 }

  // ---- The line ------------------------------------------------------------------

  function MeanX(points: seq<Point>): real
    requires points != []
  {
    Sum(X(), points) / |points| as real
  }

  function MeanY(points: seq<Point>): real
    requires points != []
  {
    Sum(Y(), points) / |points| as real
  }

  /** (x - a)(y - b), and (x - a) squared. */
  function Cross(a: real, b: real): Point -> real { (p: Point) => (p.x - a) * (p.y - b) }

  function Spread(a: real): Point -> real { (p: Point) => Square(p.x - a) }

  function SlopePerDay(points: seq<Point>): real
    requires points != []
  {
    var denominator := Sum(Spread(MeanX(points)), points);
    if denominator == 0.0 then 0.0
    else Sum(Cross(MeanX(points), MeanY(points)), points) / denominator
  }

  /** How far a point lies above a line. */
  function Above(p: Point, slope: real, intercept: real): real { p.y - (slope * p.x + intercept) }

  function Residual(slope: real, intercept: real): Point -> real {
    (p: Point) => Above(p, slope, intercept)
  }

  function ResidualSquare(slope: real, intercept: real): Point -> real {
    (p: Point) => Square(Above(p, slope, intercept))
  }

  function Square(r: real): real { r * r }

  lemma SquareNonNegative(r: real)
    ensures Square(r) >= 0.0 && (Square(r) == 0.0 <==> r == 0.0)
  {
    if r != 0.0 {
      SquarePositive(r);
    }
  }

  lemma SquarePositive(r: real)
    requires r != 0.0
    ensures Square(r) > 0.0
  {
    if r > 0.0 {
      PositiveProduct(r, r, Square(r));
    } else {
      PositiveProduct(-r, -r, Square(r));
    }
  }

  lemma PositiveProduct(a: real, b: real, p: real)
    requires a > 0.0 && b > 0.0 && p == a * b
    ensures p > 0.0
  {
  }

  lemma SpreadZero(a: real, points: seq<Point>)
    ensures Sum(Spread(a), points) >= 0.0
    ensures Sum(Spread(a), points) == 0.0 ==> forall p :: p in points ==> p.x == a
  {
    forall p | p in points
      ensures Spread(a)(p) >= Zero()(p) && (Spread(a)(p) == Zero()(p) ==> p.x == a)
    {
      SquareNonNegative(p.x - a);
    }
    SumAtLeast(Spread(a), Zero(), points);
    SumConstant(Zero(), 0.0, points);
  }

  lemma DeviationsCancel(points: seq<Point>, f: Point -> real, mean: real, d: Point -> real)
    requires points != [] && mean == Sum(f, points) / |points| as real
    requires forall p :: p in points ==> d(p) == f(p) - mean
    ensures Sum(d, points) == 0.0
  {
    SumConstant(One(), 1.0, points);
    SumCombined(d, f, One(), -mean, points);
  }

  /** The slope solves the normal equation, also when all points share one x. */
  lemma NormalEquation(points: seq<Point>)
    requires points != []
    ensures Sum(Cross(MeanX(points), MeanY(points)), points) ==
            SlopePerDay(points) * Sum(Spread(MeanX(points)), points)
  {
    var a, b := MeanX(points), MeanY(points);
    SpreadZero(a, points);
    if Sum(Spread(a), points) == 0.0 {
      forall p | p in points
        ensures Cross(a, b)(p) == 0.0
      {
        assert p.x - a == 0.0;
      }
      SumConstant(Cross(a, b), 0.0, points);
    }
  }

  /** Points that share one x have the slope 0. */
  lemma SharedX(points: seq<Point>, x: real)
    requires points != [] && forall p :: p in points ==> p.x == x
    ensures SlopePerDay(points) == 0.0
  {
    SumConstant(X(), x, points);
    NoSpread(points, MeanX(points));
  }

  lemma NoSpread(points: seq<Point>, x: real)
    requires forall p :: p in points ==> p.x == x
    ensures Sum(Spread(x), points) == 0.0
  {
    forall p | p in points
      ensures Spread(x)(p) == 0.0
    {
      assert p.x - x == 0.0;
    }
    SumConstant(Spread(x), 0.0, points);
  }

  function DeviationX(a: real): Point -> real { (p: Point) => p.x - a }

  function DeviationY(b: real): Point -> real { (p: Point) => p.y - b }

  function Moment(slope: real, intercept: real, a: real): Point -> real {
    (p: Point) => (p.y - (slope * p.x + intercept)) * (p.x - a)
  }

  lemma SquareAbove(r: real, u: real, d: real, g: real, q: real)
    requires q == r + d * u + g
    ensures Square(q) >= Square(r) + 2.0 * d * (r * u) + 2.0 * g * r
  {
    SquareNonNegative(d * u + g);
    assert Square(q) == Square(r) + 2.0 * d * (r * u) + 2.0 * g * r + Square(d * u + g);
  }

  /** A line through (a, b) whose slope solves the normal equation has its
      residuals in balance. */
  lemma InBalance(points: seq<Point>, a: real, b: real, slope: real)
    requires Sum(DeviationX(a), points) == 0.0 && Sum(DeviationY(b), points) == 0.0
    requires Sum(Cross(a, b), points) == slope * Sum(Spread(a), points)
    ensures Sum(Residual(slope, b - slope * a), points) == 0.0
    ensures Sum(Moment(slope, b - slope * a, a), points) == 0.0
  {
    ResidualsCancel(points, a, b, slope);
    MomentsCancel(points, a, b, slope);
  }

  lemma ResidualsCancel(points: seq<Point>, a: real, b: real, slope: real)
    requires Sum(DeviationX(a), points) == 0.0 && Sum(DeviationY(b), points) == 0.0
    ensures Sum(Residual(slope, b - slope * a), points) == 0.0
  {
    forall p | p in points
      ensures Residual(slope, b - slope * a)(p) == DeviationY(b)(p) + -slope * DeviationX(a)(p)
    {
      ResidualSplit(p, a, b, slope);
    }
    SumCombined(Residual(slope, b - slope * a), DeviationY(b), DeviationX(a), -slope, points);
  }

  lemma MomentsCancel(points: seq<Point>, a: real, b: real, slope: real)
    requires Sum(Cross(a, b), points) == slope * Sum(Spread(a), points)
    ensures Sum(Moment(slope, b - slope * a, a), points) == 0.0
  {
    MomentSplits(points, a, b, slope);
    Cancels(Moment(slope, b - slope * a, a), Cross(a, b), Spread(a), slope, points);
  }

  lemma Cancels(f: Point -> real, g: Point -> real, h: Point -> real, slope: real, points: seq<Point>)
    requires forall p :: p in points ==> f(p) == g(p) + -slope * h(p)
    requires Sum(g, points) == slope * Sum(h, points)
    ensures Sum(f, points) == 0.0
  {
    SumCombined(f, g, h, -slope, points);
  }

  lemma MomentSplits(points: seq<Point>, a: real, b: real, slope: real)
    ensures forall p :: p in points ==> Moment(slope, b - slope * a, a)(p) == Cross(a, b)(p) + -slope * Spread(a)(p)
  {
    forall p | p in points
      ensures Moment(slope, b - slope * a, a)(p) == Cross(a, b)(p) + -slope * Spread(a)(p)
    {
      ResidualSplit(p, a, b, slope);
    }
  }

  lemma ResidualSplit(p: Point, a: real, b: real, slope: real)
    ensures Residual(slope, b - slope * a)(p) == DeviationY(b)(p) + -slope * DeviationX(a)(p)
    ensures Moment(slope, b - slope * a, a)(p) == Cross(a, b)(p) + -slope * Spread(a)(p)
  {
    var u, v := p.x - a, p.y - b;
    assert p.y - (slope * p.x + (b - slope * a)) == v - slope * u;
    assert (v - slope * u) * u == v * u - slope * (u * u);
  }

  lemma PointAbove(p: Point, best: real, c: real, slope: real, intercept: real, a: real)
    ensures var d := best - slope;
            var g := c - intercept + d * a;
            ResidualSquare(slope, intercept)(p) >=
            ResidualSquare(best, c)(p) + 2.0 * d * Moment(best, c, a)(p) + 2.0 * g * Residual(best, c)(p)
  {
    var d := best - slope;
    var g := c - intercept + d * a;
    var r, u, q := Residual(best, c)(p), p.x - a, Residual(slope, intercept)(p);
    assert q == r + d * u + g;
    SquareAbove(r, u, d, g, q);
  }

  /** f with a multiple of g added. */
  function Plus(f: Point -> real, k: real, g: Point -> real): Point -> real { (p: Point) => f(p) + k * g(p) }

  lemma {:induction false} PlusNothing(f: Point -> real, k: real, g: Point -> real, points: seq<Point>)
    requires Sum(g, points) == 0.0
    ensures Sum(Plus(f, k, g), points) == Sum(f, points)
  {
    SumCombined(Plus(f, k, g), f, g, k, points);
  }

  /** The squared residual of a line in balance, moved by its residual and moment. */
  function Moved(best: real, c: real, a: real, k: real, l: real): Point -> real {
    Plus(Plus(ResidualSquare(best, c), k, Moment(best, c, a)), l, Residual(best, c))
  }

  lemma MovedBelow(p: Point, best: real, c: real, a: real, slope: real, intercept: real)
    ensures var d := best - slope;
            ResidualSquare(slope, intercept)(p) >= Moved(best, c, a, 2.0 * d, 2.0 * (c - intercept + d * a))(p)
  {
    PointAbove(p, best, c, slope, intercept, a);
  }

  /** A line with its residuals in balance beats every other line. */
  lemma BalanceWins(points: seq<Point>, best: real, c: real, a: real, slope: real, intercept: real)
    requires Sum(Residual(best, c), points) == 0.0 && Sum(Moment(best, c, a), points) == 0.0
    ensures Sum(ResidualSquare(best, c), points) <= Sum(ResidualSquare(slope, intercept), points)
  {
    var d := best - slope;
    var k, l := 2.0 * d, 2.0 * (c - intercept + d * a);
    MovedSum(points, best, c, a, k, l);
    AllMovedBelow(points, best, c, a, slope, intercept, k, l);
  }

  lemma AllMovedBelow(points: seq<Point>, best: real, c: real, a: real, slope: real, intercept: real, k: real, l: real)
    requires k == 2.0 * (best - slope) && l == 2.0 * (c - intercept + (best - slope) * a)
    ensures Sum(Moved(best, c, a, k, l), points) <= Sum(ResidualSquare(slope, intercept), points)
  {
    forall p | p in points
      ensures ResidualSquare(slope, intercept)(p) >= Moved(best, c, a, k, l)(p)
    {
      MovedBelow(p, best, c, a, slope, intercept);
    }
    SumAtLeast(ResidualSquare(slope, intercept), Moved(best, c, a, k, l), points);
  }

  lemma MovedSum(points: seq<Point>, best: real, c: real, a: real, k: real, l: real)
    requires Sum(Residual(best, c), points) == 0.0 && Sum(Moment(best, c, a), points) == 0.0
    ensures Sum(Moved(best, c, a, k, l), points) == Sum(ResidualSquare(best, c), points)
  {
    PlusNothing(ResidualSquare(best, c), k, Moment(best, c, a), points);
    PlusNothing(Plus(ResidualSquare(best, c), k, Moment(best, c, a)), l, Residual(best, c), points);
  }

  /** The intercept of the line with the reported slope through the means. */
  function MeanIntercept(points: seq<Point>): real
    requires points != []
  {
    MeanY(points) - SlopePerDay(points) * MeanX(points)
  }

  /** No line has a smaller sum of squared residuals than the one with the reported
      slope through the means. */
  lemma BestFit(points: seq<Point>, slope: real, intercept: real)
    requires points != []
    ensures Sum(ResidualSquare(SlopePerDay(points), MeanIntercept(points)), points)
            <= Sum(ResidualSquare(slope, intercept), points)
  {
    var a, b := MeanX(points), MeanY(points);
    MeansBalance(points);
    NormalEquation(points);
    BestThrough(points, a, b, SlopePerDay(points), MeanIntercept(points), slope, intercept);
  }

  lemma MeansBalance(points: seq<Point>)
    requires points != []
    ensures Sum(DeviationX(MeanX(points)), points) == 0.0
    ensures Sum(DeviationY(MeanY(points)), points) == 0.0
  {
    DeviationsCancel(points, X(), MeanX(points), DeviationX(MeanX(points)));
    DeviationsCancel(points, Y(), MeanY(points), DeviationY(MeanY(points)));
  }

  lemma BestThrough(points: seq<Point>, a: real, b: real, best: real, c: real, slope: real, intercept: real)
    requires Sum(DeviationX(a), points) == 0.0 && Sum(DeviationY(b), points) == 0.0
    requires Sum(Cross(a, b), points) == best * Sum(Spread(a), points) && c == b - best * a
    ensures Sum(ResidualSquare(best, c), points) <= Sum(ResidualSquare(slope, intercept), points)
  {
    InBalance(points, a, b, best);
    BalanceWins(points, best, c, a, slope, intercept);
  }

  predicate OnLine(p: Point, slope: real, intercept: real) { p.y == slope * p.x + intercept }

  /** Points on one line, not all at the same time, give back that line's slope. */
  lemma RecoversLine(points: seq<Point>, slope: real, intercept: real)
    requires forall p :: p in points ==> OnLine(p, slope, intercept)
    requires exists p, p' :: p in points && p' in points && p.x != p'.x
    ensures SlopePerDay(points) == slope
  {
    var p, p' :| p in points && p' in points && p.x != p'.x;
    BestFit(points, slope, intercept);
    NoResiduals(points, slope, intercept, SlopePerDay(points), MeanIntercept(points));
    SameLine(p, p', SlopePerDay(points), MeanIntercept(points), slope, intercept);
  }

  lemma ResidualZero(p: Point, slope: real, intercept: real)
    ensures ResidualSquare(slope, intercept)(p) >= 0.0
    ensures ResidualSquare(slope, intercept)(p) == 0.0 <==> OnLine(p, slope, intercept)
  {
    assert ResidualSquare(slope, intercept)(p) == Square(Above(p, slope, intercept));
    SquareNonNegative(Above(p, slope, intercept));
  }

  /** A line as good as one through every point goes through every point. */
  lemma NoResiduals(points: seq<Point>, slope: real, intercept: real, slope': real, intercept': real)
    requires forall p :: p in points ==> OnLine(p, slope, intercept)
    requires Sum(ResidualSquare(slope', intercept'), points) <= Sum(ResidualSquare(slope, intercept), points)
    ensures forall p :: p in points ==> OnLine(p, slope', intercept')
  {
    forall p | p in points
      ensures ResidualSquare(slope, intercept)(p) == 0.0
      ensures ResidualSquare(slope', intercept')(p) >= Zero()(p)
      ensures ResidualSquare(slope', intercept')(p) == Zero()(p) ==> OnLine(p, slope', intercept')
    {
      ResidualZero(p, slope, intercept);
      ResidualZero(p, slope', intercept');
    }
    SumConstant(ResidualSquare(slope, intercept), 0.0, points);
    SumConstant(Zero(), 0.0, points);
    SumAtLeast(ResidualSquare(slope', intercept'), Zero(), points);
  }

  lemma SameLine(p: Point, p': Point, slope: real, intercept: real, slope': real, intercept': real)
    requires p.x != p'.x
    requires OnLine(p, slope, intercept) && OnLine(p', slope, intercept)
    requires OnLine(p, slope', intercept') && OnLine(p', slope', intercept')
    ensures slope == slope'
  {
    assert (slope - slope') * (p.x - p'.x) == 0.0;
  }

  // ---- The forecast ----------------------------------------------------------------

  const MIN_POINTS := 6
  const MIN_SPAN := 6 * 3600 * 1_000_000
  const MICROS_PER_DAY := 86400 * 1_000_000
  const MAX_DAYS := 3650.0

  /** One reading of a mount; `at` counts microseconds. */
  datatype Reading = Reading(at: int, used: int, size: int)

  /** `daysUntilFull` before it is rounded for display. */
  datatype Forecast = Forecast(bytesPerDay: real, daysUntilFull: Option<real>, used: int, size: int)

  /** A stable sort by time. */
  function Insert(r: Reading, rows: seq<Reading>): seq<Reading> {
    if rows == [] || rows[|rows| - 1].at <= r.at then rows + [r]
    else Insert(r, rows[..|rows| - 1]) + [rows[|rows| - 1]]
  }

  function SortByTime(rows: seq<Reading>): seq<Reading> {
    if rows == [] then [] else Insert(rows[|rows| - 1], SortByTime(rows[..|rows| - 1]))
  }

  predicate InOrder(rows: seq<Reading>) {
    forall i, j :: 0 <= i < j < |rows| ==> rows[i].at <= rows[j].at
  }

  /** The readings of one moment, in their order. */
  function At(rows: seq<Reading>, at: int): seq<Reading> {
    if rows == [] then []
    else At(rows[..|rows| - 1], at) + if rows[|rows| - 1].at == at then [rows[|rows| - 1]] else []
  }

  lemma AtConcat(rows: seq<Reading>, r: Reading, at: int)
    ensures At(rows + [r], at) == At(rows, at) + if r.at == at then [r] else []
  {
    assert (rows + [r])[..|rows|] == rows;
  }

  lemma {:induction false} InsertBounded(r: Reading, rows: seq<Reading>, limit: int)
    requires r.at <= limit && forall i :: 0 <= i < |rows| ==> rows[i].at <= limit
    ensures forall i :: 0 <= i < |Insert(r, rows)| ==> Insert(r, rows)[i].at <= limit
  {
    if rows != [] && rows[|rows| - 1].at > r.at {
      InsertBounded(r, rows[..|rows| - 1], limit);
    }
  }

  lemma {:induction false} InsertSorts(r: Reading, rows: seq<Reading>)
    requires InOrder(rows)
    ensures InOrder(Insert(r, rows))
  {
    if rows != [] && rows[|rows| - 1].at > r.at {
      InsertSorts(r, rows[..|rows| - 1]);
      InsertBounded(r, rows[..|rows| - 1], rows[|rows| - 1].at);
    }
  }

  lemma {:induction false} InsertKeeps(r: Reading, rows: seq<Reading>)
    ensures multiset(Insert(r, rows)) == multiset(rows) + multiset{r}
  {
    if rows != [] && rows[|rows| - 1].at > r.at {
      InsertKeeps(r, rows[..|rows| - 1]);
      assert rows == rows[..|rows| - 1] + [rows[|rows| - 1]];
    }
  }

  lemma {:induction false} InsertStable(r: Reading, rows: seq<Reading>, at: int)
    ensures At(Insert(r, rows), at) == At(rows + [r], at)
  {
    if rows != [] && rows[|rows| - 1].at > r.at {
      var before, last := rows[..|rows| - 1], rows[|rows| - 1];
      InsertStable(r, before, at);
      AtConcat(Insert(r, before), last, at);
      AtConcat(before, r, at);
      AtConcat(rows, r, at);
    }
  }

  /** Sorted, nothing lost, and readings of one moment keep their order. */
  lemma {:induction false} SortedStably(rows: seq<Reading>)
    ensures InOrder(SortByTime(rows)) && multiset(SortByTime(rows)) == multiset(rows)
    ensures forall at :: At(SortByTime(rows), at) == At(rows, at)
  {
    if rows != [] {
      var before, last := rows[..|rows| - 1], rows[|rows| - 1];
      assert rows == before + [last];
      SortedStably(before);
      InsertSorts(last, SortByTime(before));
      InsertKeeps(last, SortByTime(before));
      forall at
        ensures At(SortByTime(rows), at) == At(rows, at)
      {
        InsertStable(last, SortByTime(before), at);
        AtConcat(SortByTime(before), last, at);
      }
    }
  }

  function PointSince(first: Reading, r: Reading): Point {
    Point((r.at - first.at) as real / MICROS_PER_DAY as real, r.used as real)
  }

  function PointsOf(rows: seq<Reading>): seq<Point>
    requires rows != []
  {
    seq(|rows|, i requires 0 <= i < |rows| => PointSince(rows[0], rows[i]))
  }

  predicate EnoughHistory(rows: seq<Reading>) {
    |rows| >= MIN_POINTS && rows[|rows| - 1].at - rows[0].at >= MIN_SPAN
  }

  /** The forecast of a mount from its readings in time order. */
  function ForecastOf(rows: seq<Reading>): Forecast
    requires EnoughHistory(rows)
  {
    var slope := SlopePerDay(PointsOf(rows));
    var last := rows[|rows| - 1];
    var days :=
      if last.used >= last.size then Some(0.0)
      else if slope > 0.0 then
        var d := (last.size - last.used) as real / slope;
        if d > MAX_DAYS then None else Some(d)
      else None;
    Forecast(slope, days, last.used, last.size)
  }

  /** With enough history the points do not all share one time, so the slope is a
      real least-squares slope: its denominator is not zero. */
  lemma SlopeIsDefined(rows: seq<Reading>)
    requires EnoughHistory(rows)
    ensures var points := PointsOf(rows);
            && points[0].x != points[|points| - 1].x
            && Sum(Spread(MeanX(points)), points) > 0.0
  {
    var points := PointsOf(rows);
    assert points[0].x == 0.0 && points[|points| - 1].x > 0.0;
    SpreadZero(MeanX(points), points);
  }

  /** What a reported number of days means: at the fitted rate, the last reading
      grows to the size in just that time; 0 says it is full already, none that it
      is not growing or would take longer than the horizon. */
  predicate TellsDays(f: Forecast) {
    && (f.daysUntilFull.None? <==>
          f.used < f.size &&
          (f.bytesPerDay <= 0.0 || f.used as real + f.bytesPerDay * MAX_DAYS < f.size as real))
    && (f.daysUntilFull.Some? ==> 0.0 <= f.daysUntilFull.value <= MAX_DAYS)
    && (f.daysUntilFull == Some(0.0) <==> f.used >= f.size)
    && (f.daysUntilFull.Some? && f.daysUntilFull.value > 0.0 ==>
          f.used as real + f.bytesPerDay * f.daysUntilFull.value == f.size as real)
  }

  lemma DaysMeaning(rows: seq<Reading>)
    requires EnoughHistory(rows)
    ensures TellsDays(ForecastOf(rows))
  {
    var f := ForecastOf(rows);
    if f.used < f.size && f.bytesPerDay > 0.0 {
      Quotient((f.size - f.used) as real, f.bytesPerDay);
    }
  }

  lemma Quotient(left: real, rate: real)
    requires left > 0.0 && rate > 0.0
    ensures left / rate > 0.0 && rate * (left / rate) == left
    ensures left / rate > MAX_DAYS <==> left > rate * MAX_DAYS
  {
  }

  /** The forecast from all readings of a mount, or none when there are too few. */
  function ForecastFrom(readings: seq<Reading>): Option<Forecast> {
    var rows := SortByTime(readings);
    if EnoughHistory(rows) then Some(ForecastOf(rows)) else None
  }

  // ---- What a forecast says of the readings, in whatever order they come ----------------

  /** No reading is later, and none of the same moment comes after it. */
  predicate Newest(readings: seq<Reading>, i: nat) {
    && i < |readings|
    && (forall j :: 0 <= j < i ==> readings[j].at <= readings[i].at)
    && (forall j :: i < j < |readings| ==> readings[j].at < readings[i].at)
  }

  /** At least `MIN_POINTS` readings, two of them `MIN_SPAN` apart. */
  predicate LongEnough(readings: seq<Reading>) {
    && |readings| >= MIN_POINTS
    && exists i, j :: 0 <= i < |readings| && 0 <= j < |readings| && readings[i].at - readings[j].at >= MIN_SPAN
  }

  function Days(at: int): real { at as real / MICROS_PER_DAY as real }

  /** How far a line through the used bytes over the days misses the readings: the sum of
      the squared distances. */
  function Misfit(readings: seq<Reading>, slope: real, intercept: real): real {
    if readings == [] then 0.0
    else
      var r := readings[|readings| - 1];
      Misfit(readings[..|readings| - 1], slope, intercept) +
      Square(Above(Point(Days(r.at), r.used as real), slope, intercept))
  }

  ghost predicate FitsBest(readings: seq<Reading>, slope: real, intercept: real) {
    forall slope', intercept' :: Misfit(readings, slope, intercept) <= Misfit(readings, slope', intercept')
  }

  /** The forecast starts from the newest reading, at the rate of the line that fits all
      of them best. */
  ghost predicate Describes(readings: seq<Reading>, f: Forecast) {
    && (exists i: nat :: Newest(readings, i) && f.used == readings[i].used && f.size == readings[i].size)
    && (exists intercept :: FitsBest(readings, f.bytesPerDay, intercept))
    && TellsDays(f)
  }

  lemma {:induction false} InsertCount(r: Reading, rows: seq<Reading>)
    ensures |Insert(r, rows)| == |rows| + 1
    ensures Insert(r, rows)[|rows|] == if rows == [] || rows[|rows| - 1].at <= r.at then r else rows[|rows| - 1]
  {
    if rows != [] && rows[|rows| - 1].at > r.at {
      InsertCount(r, rows[..|rows| - 1]);
    }
  }

  /** The last reading in time order is the newest. */
  lemma {:induction false} LastIsNewest(readings: seq<Reading>) returns (i: nat)
    requires readings != []
    ensures |SortByTime(readings)| == |readings|
    ensures Newest(readings, i) && SortByTime(readings)[|readings| - 1] == readings[i]
  {
    var before, last := readings[..|readings| - 1], readings[|readings| - 1];
    InsertCount(last, SortByTime(before));
    i := |before|;
    if before != [] {
      var i' := LastIsNewest(before);
      assert before + [last] == readings;
      if last.at < before[i'].at {
        i := i';
      }
    }
  }

  /** Sorted or not, the same readings are there. */
  lemma SameReadings(readings: seq<Reading>, r: Reading)
    ensures r in SortByTime(readings) <==> r in readings
  {
    SortedStably(readings);
    assert r in readings <==> r in multiset(readings);
    assert r in SortByTime(readings) <==> r in multiset(SortByTime(readings));
  }

  lemma EnoughIsLong(readings: seq<Reading>)
    ensures EnoughHistory(SortByTime(readings)) <==> LongEnough(readings)
  {
    if readings != [] {
      var newest := LastIsNewest(readings);
      var rows := SortByTime(readings);
      SortedStably(readings);
      forall i | 0 <= i < |readings|
        ensures rows[0].at <= readings[i].at <= rows[|rows| - 1].at
      {
        SameReadings(readings, readings[i]);
      }
      SameReadings(readings, rows[0]);
      var first :| 0 <= first < |readings| && readings[first] == rows[0];
      assert rows[|rows| - 1] == readings[newest];
    }
  }

  lemma {:induction false} InsertMisfit(r: Reading, rows: seq<Reading>, slope: real, intercept: real)
    ensures Misfit(Insert(r, rows), slope, intercept) == Misfit(rows + [r], slope, intercept)
  {
    MisfitConcat(rows, r, slope, intercept);
    if rows != [] && rows[|rows| - 1].at > r.at {
      var before, last := rows[..|rows| - 1], rows[|rows| - 1];
      InsertMisfit(r, before, slope, intercept);
      MisfitConcat(Insert(r, before), last, slope, intercept);
      MisfitConcat(before, r, slope, intercept);
    }
  }

  lemma MisfitConcat(rows: seq<Reading>, r: Reading, slope: real, intercept: real)
    ensures Misfit(rows + [r], slope, intercept) ==
            Misfit(rows, slope, intercept) + Square(Above(Point(Days(r.at), r.used as real), slope, intercept))
  {
    assert (rows + [r])[..|rows|] == rows;
  }

  lemma {:induction false} SortedMisfit(readings: seq<Reading>, slope: real, intercept: real)
    ensures Misfit(SortByTime(readings), slope, intercept) == Misfit(readings, slope, intercept)
  {
    if readings != [] {
      var before, last := readings[..|readings| - 1], readings[|readings| - 1];
      SortedMisfit(before, slope, intercept);
      InsertMisfit(last, SortByTime(before), slope, intercept);
      MisfitConcat(SortByTime(before), last, slope, intercept);
    }
  }

  lemma SameMisfit(r: Reading, first: Reading, slope: real, intercept: real, moved: real)
    requires moved == intercept + slope * Days(first.at)
    ensures ResidualSquare(slope, moved)(PointSince(first, r)) ==
            Square(Above(Point(Days(r.at), r.used as real), slope, intercept))
  {
  }

  lemma PointsSnoc(rows: seq<Reading>, k: nat)
    requires k < |rows|
    ensures PointsOf(rows)[..k + 1] == PointsOf(rows)[..k] + [PointSince(rows[0], rows[k])]
    ensures rows[..k + 1] == rows[..k] + [rows[k]]
  {
  }

  lemma {:induction false} MisfitOfPoints(rows: seq<Reading>, k: nat, slope: real, intercept: real, moved: real)
    requires k <= |rows| && rows != [] && moved == intercept + slope * Days(rows[0].at)
    ensures Sum(ResidualSquare(slope, moved), PointsOf(rows)[..k]) == Misfit(rows[..k], slope, intercept)
  {
    if k > 0 {
      MisfitOfPoints(rows, k - 1, slope, intercept, moved);
      OneMorePoint(rows, k - 1, slope, intercept, moved);
    }
  }

  lemma OneMorePoint(rows: seq<Reading>, k: nat, slope: real, intercept: real, moved: real)
    requires k < |rows| && moved == intercept + slope * Days(rows[0].at)
    ensures var f, points := ResidualSquare(slope, moved), PointsOf(rows);
            Sum(f, points[..k + 1]) - Sum(f, points[..k]) ==
            Misfit(rows[..k + 1], slope, intercept) - Misfit(rows[..k], slope, intercept)
  {
    PointsSnoc(rows, k);
    SameAdded(ResidualSquare(slope, moved), PointsOf(rows)[..k], PointSince(rows[0], rows[k]), rows[..k], rows[k],
              slope, intercept, rows[0], moved);
  }

  lemma SameAdded(f: Point -> real, points: seq<Point>, p: Point, rows: seq<Reading>, r: Reading, slope: real,
                  intercept: real, first: Reading, moved: real)
    requires f == ResidualSquare(slope, moved) && p == PointSince(first, r)
    requires moved == intercept + slope * Days(first.at)
    ensures Sum(f, points + [p]) - Sum(f, points) ==
            Misfit(rows + [r], slope, intercept) - Misfit(rows, slope, intercept)
  {
    SumSnoc(f, points, p);
    MisfitConcat(rows, r, slope, intercept);
    SameMisfit(r, first, slope, intercept, moved);
  }

  lemma SumSnoc(f: Point -> real, points: seq<Point>, p: Point)
    ensures Sum(f, points + [p]) == Sum(f, points) + f(p)
  {
    assert (points + [p])[..|points|] == points;
  }

  /** The rate fits the readings best, counted from any day and in any order. */
  lemma RateFitsBest(readings: seq<Reading>) returns (intercept: real)
    requires readings != [] && SortByTime(readings) != []
    ensures FitsBest(readings, SlopePerDay(PointsOf(SortByTime(readings))), intercept)
  {
    var rows := SortByTime(readings);
    intercept := FitsRows(rows);
    var slope := SlopePerDay(PointsOf(rows));
    SortedMisfit(readings, slope, intercept);
    forall slope', intercept'
      ensures Misfit(readings, slope, intercept) <= Misfit(readings, slope', intercept')
    {
      SortedMisfit(readings, slope', intercept');
      assert Misfit(rows, slope, intercept) <= Misfit(rows, slope', intercept');
    }
  }

  lemma FitsRows(rows: seq<Reading>) returns (intercept: real)
    requires rows != []
    ensures FitsBest(rows, SlopePerDay(PointsOf(rows)), intercept)
  {
    var points := PointsOf(rows);
    intercept := MovedBack(MeanIntercept(points), SlopePerDay(points), Days(rows[0].at));
    forall slope', intercept'
      ensures Sum(ResidualSquare(SlopePerDay(points), MeanIntercept(points)), points)
              <= Sum(ResidualSquare(slope', intercept'), points)
    {
      BestFit(points, slope', intercept');
    }
    FitsMoved(rows, SlopePerDay(points), intercept, MeanIntercept(points));
  }

  lemma FitsMoved(rows: seq<Reading>, slope: real, intercept: real, moved: real)
    requires rows != [] && moved == intercept + slope * Days(rows[0].at)
    requires forall slope', moved' ::
               Sum(ResidualSquare(slope, moved), PointsOf(rows)) <= Sum(ResidualSquare(slope', moved'), PointsOf(rows))
    ensures FitsBest(rows, slope, intercept)
  {
    forall slope', intercept'
      ensures Misfit(rows, slope, intercept) <= Misfit(rows, slope', intercept')
    {
      NotBetter(rows, slope, intercept, moved, slope', intercept', intercept' + slope' * Days(rows[0].at));
    }
  }

  lemma MovedBack(moved: real, slope: real, start: real) returns (intercept: real)
    ensures moved == intercept + slope * start
  {
    intercept := moved - slope * start;
  }

  lemma NotBetter(rows: seq<Reading>, slope: real, intercept: real, moved: real,
                  slope': real, intercept': real, moved': real)
    requires rows != [] && moved == intercept + slope * Days(rows[0].at)
    requires moved' == intercept' + slope' * Days(rows[0].at)
    requires Sum(ResidualSquare(slope, moved), PointsOf(rows)) <= Sum(ResidualSquare(slope', moved'), PointsOf(rows))
    ensures Misfit(rows, slope, intercept) <= Misfit(rows, slope', intercept')
  {
    MisfitIsSum(rows, slope, intercept, moved);
    MisfitIsSum(rows, slope', intercept', moved');
  }

  lemma MisfitIsSum(rows: seq<Reading>, slope: real, intercept: real, moved: real)
    requires rows != [] && moved == intercept + slope * Days(rows[0].at)
    ensures Misfit(rows, slope, intercept) == Sum(ResidualSquare(slope, moved), PointsOf(rows))
  {
    MisfitOfPoints(rows, |rows|, slope, intercept, moved);
    assert rows[..|rows|] == rows && PointsOf(rows)[..|rows|] == PointsOf(rows);
  }

  /** Exactly the long histories have a forecast, and it is one that describes them. */
  lemma ForecastDescribes(readings: seq<Reading>)
    ensures ForecastFrom(readings).Some? <==> LongEnough(readings)
    ensures ForecastFrom(readings).Some? ==> Describes(readings, ForecastFrom(readings).value)
  {
    EnoughIsLong(readings);
    if LongEnough(readings) {
      var newest := LastIsNewest(readings);
      var intercept := RateFitsBest(readings);
      DaysMeaning(SortByTime(readings));
    }
  }

  // ---- From samples to forecasts -----------------------------------------------------

  /** A filesystem as reported; none where a field is missing or of another type. */
  datatype Filesystem = Filesystem(mount: Option<string>, used: Option<int>, size: Option<int>)

  datatype Sample = Sample(at: int, filesystems: seq<Filesystem>)

  predicate Usable(fs: Filesystem) {
    fs.mount.Some? && fs.used.Some? && fs.size.Some? && fs.size.value != 0
  }

  function ReadingIn(at: int, fs: Filesystem, mount: string): seq<Reading> {
    if Usable(fs) && fs.mount.value == mount then [Reading(at, fs.used.value, fs.size.value)] else []
  }

  function ReadingsIn(at: int, filesystems: seq<Filesystem>, mount: string): seq<Reading> {
    if filesystems == [] then []
    else
      ReadingsIn(at, filesystems[..|filesystems| - 1], mount) + ReadingIn(at, filesystems[|filesystems| - 1], mount)
  }

  /** All readings of a mount, in the order of the samples. */
  function ReadingsOf(samples: seq<Sample>, mount: string): seq<Reading> {
    if samples == [] then []
    else
      var s := samples[|samples| - 1];
      ReadingsOf(samples[..|samples| - 1], mount) + ReadingsIn(s.at, s.filesystems, mount)
  }

  /** The filesystem is one of the mount with a size, and this is its reading. */
  predicate Reports(at: int, fs: Filesystem, mount: string, r: Reading) {
    fs == Filesystem(Some(mount), Some(r.used), Some(r.size)) && r.size != 0 && r.at == at
  }

  lemma {:induction false} ReadingsInAre(at: int, filesystems: seq<Filesystem>, mount: string, r: Reading)
    ensures r in ReadingsIn(at, filesystems, mount) <==> exists fs :: fs in filesystems && Reports(at, fs, mount, r)
  {
    if filesystems != [] {
      var before, last := filesystems[..|filesystems| - 1], filesystems[|filesystems| - 1];
      ReadingsInAre(at, before, mount, r);
      assert r in ReadingIn(at, last, mount) <==> Reports(at, last, mount, r);
      assert forall fs :: fs in filesystems <==> fs in before || fs == last;
    }
  }

  /** The readings of a mount are those some sample reports, with all fields there and a size
      that is not 0. */
  lemma {:induction false} ReadingsAre(samples: seq<Sample>, mount: string, r: Reading)
    ensures r in ReadingsOf(samples, mount) <==>
              exists s, fs :: s in samples && fs in s.filesystems && Reports(s.at, fs, mount, r)
  {
    if samples != [] {
      var before, last := samples[..|samples| - 1], samples[|samples| - 1];
      ReadingsAre(before, mount, r);
      ReadingsInAre(last.at, last.filesystems, mount, r);
      assert forall s :: s in samples <==> s in before || s == last;
    }
  }

  /** They come sample by sample. */
  lemma {:induction false} ReadingsConcat(samples: seq<Sample>, more: seq<Sample>, mount: string)
    ensures ReadingsOf(samples + more, mount) == ReadingsOf(samples, mount) + ReadingsOf(more, mount)
  {
    if more == [] {
      assert samples + more == samples;
    } else {
      var before, last := more[..|more| - 1], more[|more| - 1];
      ReadingsConcat(samples, before, mount);
      assert before + [last] == more;
      Joined(samples, before, [last]);
      ReadingsSnoc(samples + before, last, mount);
      ReadingsSnoc(before, last, mount);
      Joined(ReadingsOf(samples, mount), ReadingsOf(before, mount), ReadingsIn(last.at, last.filesystems, mount));
    }
  }

  lemma ReadingsSnoc(samples: seq<Sample>, s: Sample, mount: string)
    ensures ReadingsOf(samples + [s], mount) == ReadingsOf(samples, mount) + ReadingsIn(s.at, s.filesystems, mount)
  {
    assert (samples + [s])[..|samples|] == samples;
  }

  /** The readings kept for a mount; none is an absent key. */
  function Kept(perMount: map<string, seq<Reading>>, mount: string): seq<Reading> {
    if mount in perMount then perMount[mount] else []
  }

  method AddReading(at: int, fs: Filesystem, perMount: map<string, seq<Reading>>)
    returns (added: map<string, seq<Reading>>)
    ensures forall mount :: Kept(added, mount) == Kept(perMount, mount) + ReadingIn(at, fs, mount)
  {
    added := perMount;
    if Usable(fs) {
      added := added[fs.mount.value := Kept(added, fs.mount.value) + [Reading(at, fs.used.value, fs.size.value)]];
    }
  }

  lemma OneMore(kept: seq<Reading>, at: int, filesystems: seq<Filesystem>, i: nat, mount: string)
    requires i < |filesystems|
    ensures (kept + ReadingsIn(at, filesystems[..i], mount)) + ReadingIn(at, filesystems[i], mount) ==
            kept + ReadingsIn(at, filesystems[..i + 1], mount)
  {
    assert filesystems[..i + 1][..i] == filesystems[..i];
  }

  method AddSample(s: Sample, perMount: map<string, seq<Reading>>) returns (added: map<string, seq<Reading>>)
    ensures forall mount :: Kept(added, mount) == Kept(perMount, mount) + ReadingsIn(s.at, s.filesystems, mount)
  {
    added := perMount;
    for i := 0 to |s.filesystems|
      invariant forall mount ::
                  Kept(added, mount) == Kept(perMount, mount) + ReadingsIn(s.at, s.filesystems[..i], mount)
    {
      added := AddReading(s.at, s.filesystems[i], added);
      forall mount
        ensures Kept(added, mount) == Kept(perMount, mount) + ReadingsIn(s.at, s.filesystems[..i + 1], mount)
      {
        OneMore(Kept(perMount, mount), s.at, s.filesystems, i, mount);
      }
    }
    assert s.filesystems[..|s.filesystems|] == s.filesystems;
  }

  /** The first loop: the readings of each mount. */
  method GroupByMount(samples: seq<Sample>) returns (perMount: map<string, seq<Reading>>)
    ensures forall mount :: Kept(perMount, mount) == ReadingsOf(samples, mount)
  {
    perMount := map[];
    for i := 0 to |samples|
      invariant forall mount :: Kept(perMount, mount) == ReadingsOf(samples[..i], mount)
    {
      assert samples[..i + 1][..i] == samples[..i];
      perMount := AddSample(samples[i], perMount);
    }
    assert samples[..|samples|] == samples;
  }

  /** A forecast for exactly the mounts with enough history, each from all of its
      readings in time order. */
  method ForecastFilesystems(samples: seq<Sample>) returns (result: map<string, Forecast>)
    ensures forall mount :: mount in result <==> ForecastFrom(ReadingsOf(samples, mount)).Some?
    ensures forall mount :: mount in result ==> Some(result[mount]) == ForecastFrom(ReadingsOf(samples, mount))
    ensures forall mount :: mount in result <==> LongEnough(ReadingsOf(samples, mount))
    ensures forall mount :: mount in result ==> Describes(ReadingsOf(samples, mount), result[mount])
  {
    var perMount := GroupByMount(samples);
    result := map[];
    var mounts := perMount.Keys;
    while mounts != {}
      invariant mounts <= perMount.Keys
      invariant forall mount :: mount in result <==>
                  mount in perMount.Keys - mounts && ForecastFrom(perMount[mount]).Some?
      invariant forall mount :: mount in result ==> Some(result[mount]) == ForecastFrom(perMount[mount])
    {
      var mount :| mount in mounts;
      mounts := mounts - {mount};
      var forecast := ForecastFrom(perMount[mount]);
      if forecast.Some? {
        result := result[mount := forecast.value];
      }
    }
    forall mount
      ensures ForecastFrom(ReadingsOf(samples, mount)) ==
              if mount in perMount then ForecastFrom(perMount[mount]) else None
    {
      assert Kept(perMount, mount) == ReadingsOf(samples, mount);
    }
    forall mount
      ensures ForecastFrom(ReadingsOf(samples, mount)).Some? <==> LongEnough(ReadingsOf(samples, mount))
      ensures mount in result ==> Describes(ReadingsOf(samples, mount), result[mount])
    {
      ForecastDescribes(ReadingsOf(samples, mount));
    }
  }

  /** The smallest reported number of days, or none when no mount is filling. */
  method SoonestFullDays(forecast: map<string, Forecast>) returns (soonest: Option<real>)
    ensures soonest.None? <==> forall mount :: mount in forecast ==> forecast[mount].daysUntilFull.None?
    ensures soonest.Some? ==> exists mount :: mount in forecast && forecast[mount].daysUntilFull == soonest
    ensures soonest.Some? ==> forall mount :: mount in forecast && forecast[mount].daysUntilFull.Some? ==>
              soonest.value <= forecast[mount].daysUntilFull.value
  {
    soonest := None;
    var mounts := forecast.Keys;
    while mounts != {}
      invariant mounts <= forecast.Keys
      invariant soonest.None? <==>
                  forall mount :: mount in forecast.Keys - mounts ==> forecast[mount].daysUntilFull.None?
      invariant soonest.Some? ==> exists mount :: mount in forecast && forecast[mount].daysUntilFull == soonest
      invariant soonest.Some? ==>
                  forall mount :: mount in forecast.Keys - mounts && forecast[mount].daysUntilFull.Some? ==>
                    soonest.value <= forecast[mount].daysUntilFull.value
    {
      var mount :| mount in mounts;
      mounts := mounts - {mount};
      var days := forecast[mount].daysUntilFull;
      if days.Some? && (soonest.None? || days.value < soonest.value) {
        soonest := days;
      }
    }
  }
}
