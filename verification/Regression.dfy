/**
 Exponentially weighted linear regression on (time, value) histories and the
 trend label derived from it. Times, values and weights are exact reals; the
 weight of a sample is any positive function of its age.
 */
module Regression {
  import opened Options
  import opened Products
  import opened Rounding

  datatype Sample = Sample(t: real, v: real)
  datatype Point = Point(w: real, t: real, v: real)
  datatype Fit = Fit(slope: real, tMean: real, vMean: real)

  // ----- Preparing the points

  /** Samples whose timestamp and value are both present, in order. */
  function Valid(ts: seq<Option<real>>, vs: seq<Option<real>>): seq<Sample> {
    if ts == [] || vs == [] then []
    else if ts[0].Some? && vs[0].Some? then [Sample(ts[0].value, vs[0].value)] + Valid(ts[1..], vs[1..])
    else Valid(ts[1..], vs[1..])
  }

  /** Every age has a positive weight, as `exp(-decay * age)` has. */
  ghost predicate Positive(weight: real -> real) {
    forall age :: weight(age) > 0.0
  }

  function Latest(ss: seq<Sample>): real
    requires ss != []
  {
    if |ss| == 1 then ss[0].t
    else var m := Latest(ss[1..]); if ss[0].t > m then ss[0].t else m
  }

  /** Attach to each sample the weight of its age at time `now`. */
  function Weigh(ss: seq<Sample>, now: real, weight: real -> real): (ps: seq<Point>)
    ensures |ps| == |ss|
    ensures forall i :: 0 <= i < |ss| ==> ps[i] == Point(weight(now - ss[i].t), ss[i].t, ss[i].v)
  {
    seq(|ss|, i requires 0 <= i < |ss| => Point(weight(now - ss[i].t), ss[i].t, ss[i].v))
  }

  // ----- Weighted sums

  function SumW(ps: seq<Point>): real {
    if ps == [] then 0.0 else ps[0].w + SumW(ps[1..])
  }

  function SumWT(ps: seq<Point>): real {
    if ps == [] then 0.0 else ps[0].w * ps[0].t + SumWT(ps[1..])
  }

  function SumWV(ps: seq<Point>): real {
    if ps == [] then 0.0 else ps[0].w * ps[0].v + SumWV(ps[1..])
  }

  /** Weighted sum of (t - a)(v - b). */
  function Cross(ps: seq<Point>, a: real, b: real): real {
    if ps == [] then 0.0 else ps[0].w * (ps[0].t - a) * (ps[0].v - b) + Cross(ps[1..], a, b)
  }

  /** Weighted sum of (t - a) squared. */
  function Spread(ps: seq<Point>, a: real): real {
    if ps == [] then 0.0 else ps[0].w * ((ps[0].t - a) * (ps[0].t - a)) + Spread(ps[1..], a)
  }

  /** Value minus the line through (a, b) with slope m. */
  function Residual(p: Point, m: real, a: real, b: real): real {
    p.v - (b + m * (p.t - a))
  }

  /** Weighted sum of (t - a). */
  function SumX(ps: seq<Point>, a: real): real {
    if ps == [] then 0.0 else ps[0].w * (ps[0].t - a) + SumX(ps[1..], a)
  }

  /** Weighted sum of the residuals of a line. */
  function SumR(ps: seq<Point>, m: real, a: real, b: real): real {
    if ps == [] then 0.0 else ps[0].w * Residual(ps[0], m, a, b) + SumR(ps[1..], m, a, b)
  }

  /** Weighted sum of (t - a) times the residuals of a line. */
  function SumXR(ps: seq<Point>, m: real, a: real, b: real): real {
    if ps == [] then 0.0
    else ps[0].w * ((ps[0].t - a) * Residual(ps[0], m, a, b)) + SumXR(ps[1..], m, a, b)
  }

  /** Weighted squared error of the line through (a, b) with slope m. */
  function SquaredError(ps: seq<Point>, m: real, a: real, b: real): real {
    if ps == [] then 0.0
    else var r := Residual(ps[0], m, a, b); ps[0].w * (r * r) + SquaredError(ps[1..], m, a, b)
  }

  ghost predicate Weighted(ps: seq<Point>) {
    forall i :: 0 <= i < |ps| ==> ps[i].w > 0.0
  }

  lemma {:induction false} TotalWeightPositive(ps: seq<Point>)
    requires ps != [] && Weighted(ps)
    ensures SumW(ps) > 0.0
  {
    if |ps| > 1 { TotalWeightPositive(ps[1..]); }
  }

  // ----- The fit

  /** Slope, weighted time mean and weighted value mean. */
  function Wls(ps: seq<Point>): Fit
    requires ps != [] && Weighted(ps)
  {
    TotalWeightPositive(ps);
    var tMean := SumWT(ps) / SumW(ps);
    var vMean := SumWV(ps) / SumW(ps);
    var num := Cross(ps, tMean, vMean);
    var den := Spread(ps, tMean);
    Fit(if den != 0.0 then num / den else 0.0, tMean, vMean)
  }

  function PredictAt(ts: seq<Option<real>>, vs: seq<Option<real>>, target: real, weight: real -> real): Option<real>
    requires Positive(weight)
  {
    var ss := Valid(ts, vs);
    if ss == [] then None
    else if |ss| < 2 then Some(ss[0].v)
    else
      Some(Extend(Wls(Weigh(ss, Latest(ss), weight)), target))
  }

  /** The fitted line at time `target`. */
  function Extend(f: Fit, target: real): real {
    f.slope * (target - f.tMean) + f.vMean
  }

  function WeightedSlope(ts: seq<Option<real>>, vs: seq<Option<real>>, weight: real -> real): Option<real>
    requires Positive(weight)
  {
    var ss := Valid(ts, vs);
    if |ss| < 2 then None else Some(Wls(Weigh(ss, Latest(ss), weight)).slope)
  }

  /** A weighted square is non-negative, and 0 only for 0. */
  lemma WeightedSquare(w: real, x: real) returns (z: real)
    requires w > 0.0
    ensures z == w * (x * x) && z >= 0.0
    ensures z == 0.0 ==> x == 0.0
  {
    var y := Product(x, x);
    z := Product(w, y);
  }

  // ----- Normal equations

  lemma {:induction false} ZeroSpread(ps: seq<Point>, a: real, b: real)
    requires Weighted(ps)
    ensures Spread(ps, a) >= 0.0
    ensures Spread(ps, a) == 0.0 ==> Cross(ps, a, b) == 0.0
    ensures Spread(ps, a) == 0.0 ==> forall i :: 0 <= i < |ps| ==> ps[i].t == a
  {
    if ps != [] {
      ZeroSpread(ps[1..], a, b);
      var square := WeightedSquare(ps[0].w, ps[0].t - a);
      if Spread(ps, a) == 0.0 {
        assert forall i :: 0 < i < |ps| ==> ps[i] == ps[1..][i - 1];
      }
    }
  }

  lemma {:induction false} CentreTimes(ps: seq<Point>, a: real)
    ensures SumX(ps, a) == SumWT(ps) - a * SumW(ps)
  {
    if ps != [] {
      CentreTimes(ps[1..], a);
      Distribute(a, ps[0].w, SumW(ps[1..]));
    }
  }

  /** Weighted sum of (v - b). */
  function SumY(ps: seq<Point>, b: real): real {
    if ps == [] then 0.0 else ps[0].w * (ps[0].v - b) + SumY(ps[1..], b)
  }

  lemma {:induction false} CentreValues(ps: seq<Point>, b: real)
    ensures SumY(ps, b) == SumWV(ps) - b * SumW(ps)
  {
    if ps != [] {
      CentreValues(ps[1..], b);
      Distribute(b, ps[0].w, SumW(ps[1..]));
    }
  }

  lemma TiltStep(w: real, x: real, y: real, m: real, sumX: real, sumY: real)
    ensures w * (y - m * x) + (sumY - m * sumX) == (w * y + sumY) - m * (w * x + sumX)
  {
  }

  lemma {:induction false} TiltValues(ps: seq<Point>, m: real, a: real, b: real)
    ensures SumR(ps, m, a, b) == SumY(ps, b) - m * SumX(ps, a)
  {
    if ps != [] {
      TiltValues(ps[1..], m, a, b);
      TiltStep(ps[0].w, ps[0].t - a, ps[0].v - b, m, SumX(ps[1..], a), SumY(ps[1..], b));
    }
  }

  lemma CentreResiduals(ps: seq<Point>, m: real, a: real, b: real)
    ensures SumR(ps, m, a, b) == SumWV(ps) - b * SumW(ps) - m * SumX(ps, a)
  {
    CentreValues(ps, b);
    TiltValues(ps, m, a, b);
  }

  lemma CrossStep(w: real, x: real, v: real, m: real, b: real, cross: real, spread: real, rest: real)
    requires rest == cross - m * spread
    ensures w * (x * (v - (b + m * x))) + rest == (w * x * (v - b) + cross) - m * (w * (x * x) + spread)
  {
  }

  lemma {:induction false} CrossResiduals(ps: seq<Point>, m: real, a: real, b: real)
    ensures SumXR(ps, m, a, b) == Cross(ps, a, b) - m * Spread(ps, a)
  {
    if ps != [] {
      CrossResiduals(ps[1..], m, a, b);
      CrossStep(ps[0].w, ps[0].t - a, ps[0].v, m, b, Cross(ps[1..], a, b), Spread(ps[1..], a), SumXR(ps[1..], m, a, b));
    }
  }

  /** The residuals of the fitted line balance, alone and weighted by time. */
  lemma NormalEquations(ps: seq<Point>, f: Fit)
    requires ps != [] && Weighted(ps) && f == Wls(ps)
    ensures SumX(ps, f.tMean) == 0.0
    ensures SumR(ps, f.slope, f.tMean, f.vMean) == 0.0
    ensures SumXR(ps, f.slope, f.tMean, f.vMean) == 0.0
  {
    MeanBalances(ps, f);
    CrossResiduals(ps, f.slope, f.tMean, f.vMean);
    SlopeTimesSpread(ps, f);
  }

  lemma MeanBalances(ps: seq<Point>, f: Fit)
    requires ps != [] && Weighted(ps) && f == Wls(ps)
    ensures SumX(ps, f.tMean) == 0.0
    ensures SumR(ps, f.slope, f.tMean, f.vMean) == 0.0
  {
    TotalWeightPositive(ps);
    Undivide(SumWT(ps), SumW(ps));
    Undivide(SumWV(ps), SumW(ps));
    CentreTimes(ps, f.tMean);
    CentreResiduals(ps, f.slope, f.tMean, f.vMean);
  }

  lemma SlopeTimesSpread(ps: seq<Point>, f: Fit)
    requires ps != [] && Weighted(ps) && f == Wls(ps)
    ensures f.slope * Spread(ps, f.tMean) == Cross(ps, f.tMean, f.vMean)
  {
    ZeroSpread(ps, f.tMean, f.vMean);
    SlopeOf(Cross(ps, f.tMean, f.vMean), Spread(ps, f.tMean));
  }

  lemma SlopeOf(num: real, den: real)
    requires den >= 0.0 && (den == 0.0 ==> num == 0.0)
    ensures (if den != 0.0 then num / den else 0.0) * den == num
  {
    if den != 0.0 { Undivide(num, den); }
  }

  // ----- Least squares

  /** Weighted sum of the squared gaps d + k (t - a) between two lines. */
  function SquaredGap(ps: seq<Point>, k: real, a: real, d: real): real {
    if ps == [] then 0.0
    else ps[0].w * (Gap(ps[0], k, a, d) * Gap(ps[0], k, a, d)) + SquaredGap(ps[1..], k, a, d)
  }

  /** Tilting a line by k and lifting it by d, in terms of the residual sums of the first. */
  lemma {:induction false} ErrorOfOtherLine(ps: seq<Point>, m: real, a: real, b: real, k: real, d: real)
    ensures SquaredError(ps, m + k, a, b + d) ==
            SquaredError(ps, m, a, b) + SquaredGap(ps, k, a, d) - 2.0 * (d * SumR(ps, m, a, b) + k * SumXR(ps, m, a, b))
  {
    if ps != [] {
      ErrorOfOtherLine(ps[1..], m, a, b, k, d);
      var w, x, r := ps[0].w, ps[0].t - a, Residual(ps[0], m, a, b);
      Distribute(d, w * r, SumR(ps[1..], m, a, b));
      Distribute(k, w * (x * r), SumXR(ps[1..], m, a, b));
      OtherResidual(ps[0], m, a, b, k, d);
      GapStep(w, x, r, k, d);
    }
  }

  lemma OtherResidual(p: Point, m: real, a: real, b: real, k: real, d: real)
    ensures Residual(p, m + k, a, b + d) == Residual(p, m, a, b) - (d + k * (p.t - a))
  {
    assert (m + k) * (p.t - a) == m * (p.t - a) + k * (p.t - a);
  }

  lemma GapStep(w: real, x: real, r: real, k: real, d: real)
    ensures w * ((r - (d + k * x)) * (r - (d + k * x))) ==
            w * (r * r) + w * ((d + k * x) * (d + k * x)) - 2.0 * (d * (w * r) + k * (w * (x * r)))
  {
  }

  lemma {:induction false} SquaredGapZeroIff(ps: seq<Point>, k: real, a: real, d: real)
    requires Weighted(ps)
    ensures SquaredGap(ps, k, a, d) >= 0.0
    ensures SquaredGap(ps, k, a, d) == 0.0 <==> AgreeAt(ps, k, a, d)
  {
    if ps != [] {
      SquaredGapZeroIff(ps[1..], k, a, d);
      var square := WeightedSquare(ps[0].w, Gap(ps[0], k, a, d));
      AgreeAtFirst(ps, k, a, d);
    }
  }

  lemma AgreeAtFirst(ps: seq<Point>, k: real, a: real, d: real)
    requires ps != []
    ensures AgreeAt(ps, k, a, d) <==> Gap(ps[0], k, a, d) == 0.0 && AgreeAt(ps[1..], k, a, d)
  {
    assert forall i :: 0 < i < |ps| ==> ps[i] == ps[1..][i - 1];
    assert forall i :: 0 <= i < |ps[1..]| ==> ps[1..][i] == ps[i + 1];
  }

  /** The gap at a point between two lines: d at time a, growing by k. */
  function Gap(p: Point, k: real, a: real, d: real): real {
    d + k * (p.t - a)
  }

  /** The gap d + k (t - a) vanishes at every sampled time. */
  ghost predicate AgreeAt(ps: seq<Point>, k: real, a: real, d: real) {
    forall i :: 0 <= i < |ps| ==> Gap(ps[i], k, a, d) == 0.0
  }

  /** The value at time t of the line through (a, b) with slope m. */
  function At(m: real, a: real, b: real, t: real): real {
    b + m * (t - a)
  }

  /** Any line's error is the fitted line's plus the weighted squared gap between the two. */
  lemma ErrorDecomposition(ps: seq<Point>, f: Fit, m: real, a: real, b: real)
    requires ps != [] && Weighted(ps) && f == Wls(ps)
    ensures SquaredError(ps, m, a, b) ==
            SquaredError(ps, f.slope, f.tMean, f.vMean)
            + SquaredGap(ps, m - f.slope, f.tMean, At(m, a, b, f.tMean) - f.vMean)
  {
    var k, b' := m - f.slope, At(m, a, b, f.tMean);
    var d := b' - f.vMean;
    assert f.slope + k == m && f.vMean + d == b';
    NormalEquations(ps, f);
    MoveAnchor(ps, m, a, b, f.tMean);
    ErrorOfOtherLine(ps, f.slope, f.tMean, f.vMean, k, d);
    assert d * 0.0 == 0.0 && k * 0.0 == 0.0;
  }

  /** The two lines have the same value at every sampled time. */
  ghost predicate SameAtSamples(ps: seq<Point>, f: Fit, m: real, a: real, b: real) {
    forall i :: 0 <= i < |ps| ==> At(m, a, b, ps[i].t) == At(f.slope, f.tMean, f.vMean, ps[i].t)
  }

  lemma SameAtSamplesIff(ps: seq<Point>, f: Fit, m: real, a: real, b: real)
    ensures SameAtSamples(ps, f, m, a, b) <==> AgreeAt(ps, m - f.slope, f.tMean, At(m, a, b, f.tMean) - f.vMean)
  {
    forall i | 0 <= i < |ps|
      ensures At(m, a, b, f.tMean) - f.vMean + (m - f.slope) * (ps[i].t - f.tMean)
              == At(m, a, b, ps[i].t) - At(f.slope, f.tMean, f.vMean, ps[i].t)
    {
      GapAlgebra(m, a, b, f.slope, f.tMean, f.vMean, ps[i].t);
    }
  }

  /**
   Least squares: no line has a smaller weighted squared error than the fitted one, and the
   lines reaching that error are exactly those that agree with it at every sampled time.
   */
  lemma LeastSquares(ps: seq<Point>, m: real, a: real, b: real)
    requires ps != [] && Weighted(ps)
    ensures var f := Wls(ps);
            var best := SquaredError(ps, f.slope, f.tMean, f.vMean);
            && best <= SquaredError(ps, m, a, b)
            && (SquaredError(ps, m, a, b) == best <==> SameAtSamples(ps, f, m, a, b))
  {
    var f := Wls(ps);
    ErrorDecomposition(ps, f, m, a, b);
    SquaredGapZeroIff(ps, m - f.slope, f.tMean, At(m, a, b, f.tMean) - f.vMean);
    SameAtSamplesIff(ps, f, m, a, b);
  }

  lemma GapAlgebra(m: real, a: real, b: real, m': real, a': real, b': real, t: real)
    ensures At(m, a, b, a') - b' + (m - m') * (t - a') == At(m, a, b, t) - At(m', a', b', t)
  {
  }

  lemma AnchorAlgebra(m: real, a: real, b: real, a': real, t: real)
    ensures At(m, a', At(m, a, b, a'), t) == At(m, a, b, t)
  {
  }

  lemma {:induction false} MoveAnchor(ps: seq<Point>, m: real, a: real, b: real, a': real)
    ensures SquaredError(ps, m, a, b) == SquaredError(ps, m, a', At(m, a, b, a'))
  {
    if ps != [] {
      MoveAnchor(ps[1..], m, a, b, a');
      AnchorAlgebra(m, a, b, a', ps[0].t);
    }
  }

  // ----- Slope bounds: the weighted Chebyshev inequality

  /** Between any two distinct times the values climb at a rate of at least m. */
  ghost predicate ClimbsAtLeast(ps: seq<Point>, m: real) {
    forall i, j :: 0 <= i < |ps| && 0 <= j < |ps| && ps[i].t < ps[j].t ==> ps[j].v - ps[i].v >= m * (ps[j].t - ps[i].t)
  }

  ghost predicate ClimbsAtMost(ps: seq<Point>, m: real) {
    forall i, j :: 0 <= i < |ps| && 0 <= j < |ps| && ps[i].t < ps[j].t ==> ps[j].v - ps[i].v <= m * (ps[j].t - ps[i].t)
  }

  ghost predicate SameTime(ps: seq<Point>) {
    forall i, j :: 0 <= i < |ps| && 0 <= j < |ps| ==> ps[i].t == ps[j].t
  }

  /** x and r - k never have strictly opposite signs; with `down`, never strictly the same. */
  predicate Sides(x: real, r: real, k: real, down: bool) {
    && (x > 0.0 ==> if down then r <= k else r >= k)
    && (x < 0.0 ==> if down then r >= k else r <= k)
  }

  /** Some level separates the residuals before the centre from those after it. */
  lemma Threshold(ps: seq<Point>, m: real, a: real, b: real, down: bool) returns (k: real)
    requires if down then ClimbsAtMost(ps, m) else ClimbsAtLeast(ps, m)
    ensures forall i :: 0 <= i < |ps| ==> Sides(ps[i].t - a, Residual(ps[i], m, a, b), k, down)
  {
    var j, before, after := 0, -1, -1;
    while j < |ps|
      invariant 0 <= j <= |ps| && -1 <= before < j && -1 <= after < j
      invariant before >= 0 ==> ps[before].t < a
      invariant after >= 0 ==> ps[after].t > a
      invariant forall i :: 0 <= i < j && ps[i].t < a ==>
                  before >= 0 && Reaches(ps[before], ps[i], m, a, b, !down)
      invariant forall i :: 0 <= i < j && ps[i].t > a ==>
                  after >= 0 && Reaches(ps[after], ps[i], m, a, b, down)
    {
      if ps[j].t < a && (before < 0 || !Reaches(ps[before], ps[j], m, a, b, !down)) { before := j; }
      if ps[j].t > a && (after < 0 || !Reaches(ps[after], ps[j], m, a, b, down)) { after := j; }
      j := j + 1;
    }
    k := if after >= 0 then Residual(ps[after], m, a, b)
         else if before >= 0 then Residual(ps[before], m, a, b) else 0.0;
    forall i | 0 <= i < |ps| ensures Sides(ps[i].t - a, Residual(ps[i], m, a, b), k, down) {
      if ps[i].t < a && after >= 0 { ResidualRise(ps[i], ps[after], m, a, b); }
    }
  }

  /** p's residual is at most q's, or with `above` at least q's. */
  predicate Reaches(p: Point, q: Point, m: real, a: real, b: real, above: bool) {
    if above then Residual(p, m, a, b) >= Residual(q, m, a, b) else Residual(p, m, a, b) <= Residual(q, m, a, b)
  }

  lemma ResidualRise(p: Point, q: Point, m: real, a: real, b: real)
    ensures Residual(q, m, a, b) - Residual(p, m, a, b) == q.v - p.v - m * (q.t - p.t)
  {
  }

  lemma ShiftStep(w: real, x: real, r: real, k: real, sumX: real, sumXR: real) returns (z: real)
    ensures z == w * (x * (r - k))
    ensures w * (x * r) + sumXR - k * (w * x + sumX) == z + (sumXR - k * sumX)
  {
    z := w * (x * (r - k));
  }

  lemma TermSign(w: real, x: real, r: real, k: real, down: bool)
    requires w > 0.0 && Sides(x, r, k, down)
    ensures if down then w * (x * (r - k)) <= 0.0 else w * (x * (r - k)) >= 0.0
  {
    var up := Product(x, r - k);
    var dn := Product(x, k - r);
    assert dn == -up;
    var above := Product(w, up);
    var below := Product(w, dn);
    assert below == -above;
  }

  /** One more point on the right sides keeps the sign; r is its residual. */
  lemma ShiftSign(w: real, x: real, r: real, k: real, sumX: real, sumXR: real, down: bool)
    requires w > 0.0 && Sides(x, r, k, down) && Signed(sumXR, k, sumX, down)
    ensures Signed(w * (x * r) + sumXR, k, w * x + sumX, down)
  {
    var z := ShiftStep(w, x, r, k, sumX, sumXR);
    TermSign(w, x, r, k, down);
  }

  predicate Signed(sumXR: real, k: real, sumX: real, down: bool) {
    if down then sumXR - k * sumX <= 0.0 else sumXR - k * sumX >= 0.0
  }

  lemma {:induction false} SignOfShifted(ps: seq<Point>, m: real, a: real, b: real, k: real, down: bool)
    requires Weighted(ps)
    requires forall i :: 0 <= i < |ps| ==> Sides(ps[i].t - a, Residual(ps[i], m, a, b), k, down)
    ensures Signed(SumXR(ps, m, a, b), k, SumX(ps, a), down)
  {
    if ps == [] {
      assert k * 0.0 == 0.0;
    } else {
      var p, rest := ps[0], ps[1..];
      SignOfShifted(rest, m, a, b, k, down);
      var r, sumX, sumXR := Residual(p, m, a, b), SumX(rest, a), SumXR(rest, m, a, b);
      ShiftSign(p.w, p.t - a, r, k, sumX, sumXR, down);
      SignedSame(p.w * ((p.t - a) * r) + sumXR, p.w * (p.t - a) + sumX, SumXR(ps, m, a, b), SumX(ps, a), k, down);
    }
  }

  lemma SignedSame(xr: real, x: real, xr': real, x': real, k: real, down: bool)
    requires xr == xr' && x == x' && Signed(xr, k, x, down)
    ensures Signed(xr', k, x', down)
  {
  }

  lemma SpreadZeroIff(ps: seq<Point>, f: Fit)
    requires ps != [] && Weighted(ps) && f == Wls(ps)
    ensures Spread(ps, f.tMean) >= 0.0
    ensures Spread(ps, f.tMean) == 0.0 <==> SameTime(ps)
  {
    ZeroSpread(ps, f.tMean, f.vMean);
    if SameTime(ps) {
      ConstantTime(ps, ps[0].t);
      NormalEquations(ps, f);
      CentreTimes(ps, f.tMean);
      TotalWeightPositive(ps);
      Undivide(SumWT(ps), SumW(ps));
      assert (ps[0].t - f.tMean) * SumW(ps) == 0.0;
      assert ps[0].t == f.tMean;
    }
  }

  lemma {:induction false} ConstantTime(ps: seq<Point>, t: real)
    requires forall i :: 0 <= i < |ps| ==> ps[i].t == t
    ensures SumWT(ps) == t * SumW(ps)
    ensures Spread(ps, t) == 0.0
  {
    if ps != [] {
      ConstantTime(ps[1..], t);
      Distribute(t, ps[0].w, SumW(ps[1..]));
    }
  }

  lemma SignedAtZero(xr: real, k: real, x: real, down: bool)
    requires Signed(xr, k, x, down) && x == 0.0
    ensures if down then xr <= 0.0 else xr >= 0.0
  {
    assert k * 0.0 == 0.0;
  }

  /** The slope that balances the residuals against one that leaves them on a known side. */
  lemma SideOfSlope(slope: real, m: real, spread: real, cross: real, xrSlope: real, xrM: real, down: bool)
    requires spread > 0.0 && xrSlope == cross - slope * spread && xrM == cross - m * spread
    requires xrSlope == 0.0 && if down then xrM <= 0.0 else xrM >= 0.0
    ensures if down then slope <= m else slope >= m
  {
    Cancel(slope, m, spread, slope * spread, m * spread);
  }

  lemma SlopeSide(ps: seq<Point>, m: real, down: bool)
    requires ps != [] && Weighted(ps) && !SameTime(ps)
    requires if down then ClimbsAtMost(ps, m) else ClimbsAtLeast(ps, m)
    ensures if down then Wls(ps).slope <= m else Wls(ps).slope >= m
  {
    var f := Wls(ps);
    var k := Threshold(ps, m, f.tMean, f.vMean, down);
    SignOfShifted(ps, m, f.tMean, f.vMean, k, down);
    NormalEquations(ps, f);
    SignedAtZero(SumXR(ps, m, f.tMean, f.vMean), k, SumX(ps, f.tMean), down);
    CrossResiduals(ps, m, f.tMean, f.vMean);
    CrossResiduals(ps, f.slope, f.tMean, f.vMean);
    SpreadZeroIff(ps, f);
    SideOfSlope(f.slope, m, Spread(ps, f.tMean), Cross(ps, f.tMean, f.vMean), SumXR(ps, f.slope, f.tMean, f.vMean),
                SumXR(ps, m, f.tMean, f.vMean), down);
  }

  /**
   Chebyshev: when every difference quotient of the history lies between lo and hi, so does the
   fitted slope, whatever the weights.
   */
  lemma SlopeBounds(ps: seq<Point>, lo: real, hi: real)
    requires ps != [] && Weighted(ps) && !SameTime(ps)
    requires ClimbsAtLeast(ps, lo) && ClimbsAtMost(ps, hi)
    ensures lo <= Wls(ps).slope <= hi
  {
    SlopeSide(ps, lo, false);
    SlopeSide(ps, hi, true);
  }

  // ----- Forecasts over histories

  /** Between any two times the history climbs at a rate of at least lo; `Weigh` keeps this. */
  ghost predicate RatesAtLeast(ss: seq<Sample>, lo: real) {
    forall i, j :: 0 <= i < |ss| && 0 <= j < |ss| && ss[i].t < ss[j].t ==> ss[j].v - ss[i].v >= lo * (ss[j].t - ss[i].t)
  }

  ghost predicate RatesAtMost(ss: seq<Sample>, hi: real) {
    forall i, j :: 0 <= i < |ss| && 0 <= j < |ss| && ss[i].t < ss[j].t ==> ss[j].v - ss[i].v <= hi * (ss[j].t - ss[i].t)
  }

  /** Two samples were taken at different times. */
  ghost predicate Spans(ss: seq<Sample>) {
    exists i, j :: 0 <= i < |ss| && 0 <= j < |ss| && ss[i].t != ss[j].t
  }

  lemma WeighKeepsRates(ss: seq<Sample>, now: real, weight: real -> real, rate: real)
    ensures RatesAtLeast(ss, rate) ==> ClimbsAtLeast(Weigh(ss, now, weight), rate)
    ensures RatesAtMost(ss, rate) ==> ClimbsAtMost(Weigh(ss, now, weight), rate)
    ensures Spans(ss) <==> !SameTime(Weigh(ss, now, weight))
  {
    var ps := Weigh(ss, now, weight);
    RisesAlike(ss, ps, rate);
    FallsAlike(ss, ps, rate);
    assert SameTime(ps) ==> !Spans(ss) by {
      assert forall i :: 0 <= i < |ss| ==> ps[i].t == ss[i].t;
    }
    assert !SameTime(ps) ==> Spans(ss) by {
      assert forall i :: 0 <= i < |ps| ==> ss[i].t == ps[i].t;
    }
  }

  lemma RisesAlike(ss: seq<Sample>, ps: seq<Point>, rate: real)
    requires |ss| == |ps| && forall i :: 0 <= i < |ps| ==> ps[i].t == ss[i].t && ps[i].v == ss[i].v
    ensures RatesAtLeast(ss, rate) ==> ClimbsAtLeast(ps, rate)
  {
    if RatesAtLeast(ss, rate) {
      forall i, j | 0 <= i < |ps| && 0 <= j < |ps| && ps[i].t < ps[j].t
        ensures ps[j].v - ps[i].v >= rate * (ps[j].t - ps[i].t)
      {
        assert ss[j].v - ss[i].v >= rate * (ss[j].t - ss[i].t);
      }
    }
  }

  lemma FallsAlike(ss: seq<Sample>, ps: seq<Point>, rate: real)
    requires |ss| == |ps| && forall i :: 0 <= i < |ps| ==> ps[i].t == ss[i].t && ps[i].v == ss[i].v
    ensures RatesAtMost(ss, rate) ==> ClimbsAtMost(ps, rate)
  {
    if RatesAtMost(ss, rate) {
      forall i, j | 0 <= i < |ps| && 0 <= j < |ps| && ps[i].t < ps[j].t
        ensures ps[j].v - ps[i].v <= rate * (ps[j].t - ps[i].t)
      {
        assert ss[j].v - ss[i].v <= rate * (ss[j].t - ss[i].t);
      }
    }
  }

  lemma FitOfHistory(ss: seq<Sample>, now: real, weight: real -> real, rate: real)
    requires ss != [] && Positive(weight)
    ensures !Spans(ss) ==> Wls(Weigh(ss, now, weight)).slope == 0.0
    ensures Spans(ss) && RatesAtLeast(ss, rate) ==> Wls(Weigh(ss, now, weight)).slope >= rate
    ensures Spans(ss) && RatesAtMost(ss, rate) ==> Wls(Weigh(ss, now, weight)).slope <= rate
  {
    var ps := Weigh(ss, now, weight);
    WeighKeepsRates(ss, now, weight, rate);
    SpreadZeroIff(ps, Wls(ps));
    if Spans(ss) && ClimbsAtLeast(ps, rate) { SlopeSide(ps, rate, false); }
    if Spans(ss) && ClimbsAtMost(ps, rate) { SlopeSide(ps, rate, true); }
  }

  ghost predicate OnLine(ss: seq<Sample>, m: real, c: real) {
    forall i :: 0 <= i < |ss| ==> ss[i].v == c + m * ss[i].t
  }

  lemma FitOnLine(ss: seq<Sample>, now: real, weight: real -> real, m: real, c: real, target: real)
    requires Positive(weight) && Spans(ss) && OnLine(ss, m, c)
    ensures |ss| >= 2
    ensures Extend(Wls(Weigh(ss, now, weight)), target) == c + m * target
  {
    LineRates(ss, m, c);
    FitOfHistory(ss, now, weight, m);
    WeighOnLine(ss, now, weight, m, c);
    MeanOnLine(Weigh(ss, now, weight), m, c);
    LineThroughMean(Wls(Weigh(ss, now, weight)), m, c, target);
  }

  ghost predicate PointsOnLine(ps: seq<Point>, m: real, c: real) {
    forall i :: 0 <= i < |ps| ==> ps[i].v == c + m * ps[i].t
  }

  lemma WeighOnLine(ss: seq<Sample>, now: real, weight: real -> real, m: real, c: real)
    requires OnLine(ss, m, c)
    ensures PointsOnLine(Weigh(ss, now, weight), m, c)
  {
  }

  lemma LineThroughMean(f: Fit, m: real, c: real, target: real)
    requires f.slope == m && f.vMean == c + m * f.tMean
    ensures Extend(f, target) == c + m * target
  {
  }

  lemma LineRates(ss: seq<Sample>, m: real, c: real)
    requires OnLine(ss, m, c)
    ensures RatesAtLeast(ss, m) && RatesAtMost(ss, m)
  {
    forall i, j | 0 <= i < |ss| && 0 <= j < |ss| ensures ss[j].v - ss[i].v == m * (ss[j].t - ss[i].t) {
      Distribute(m, ss[j].t, -ss[i].t);
    }
  }

  lemma MeanOnLine(ps: seq<Point>, m: real, c: real)
    requires ps != [] && Weighted(ps) && PointsOnLine(ps, m, c)
    ensures Wls(ps).vMean == c + m * Wls(ps).tMean
  {
    TotalWeightPositive(ps);
    SumsOnLine(ps, m, c);
    DivideLine(SumWT(ps), SumWV(ps), SumW(ps), m, c);
  }

  lemma DivideLine(t: real, v: real, w: real, m: real, c: real)
    requires w > 0.0 && v == c * w + m * t
    ensures v / w == c + m * (t / w)
  {
    var a := Quotient(t, w);
    var b := Quotient(v, w);
    var line := m * a;
    assert line * w == m * t;
    Distribute(w, c, line);
    Cancel(b, c + line, w, v, v);
  }

  lemma LineStep(w: real, t: real, m: real, c: real, sw: real, st: real)
    ensures w * (c + m * t) + (c * sw + m * st) == c * (w + sw) + m * (w * t + st)
  {
  }

  lemma {:induction false} SumsOnLine(ps: seq<Point>, m: real, c: real)
    requires PointsOnLine(ps, m, c)
    ensures SumWV(ps) == c * SumW(ps) + m * SumWT(ps)
  {
    if ps != [] {
      assert ps[0].v == c + m * ps[0].t;
      forall i | 0 <= i < |ps[1..]| ensures ps[1..][i].v == c + m * ps[1..][i].t { assert ps[1..][i] == ps[i + 1]; }
      SumsOnLine(ps[1..], m, c);
      LineStep(ps[0].w, ps[0].t, m, c, SumW(ps[1..]), SumWT(ps[1..]));
    }
  }

  // ----- Trend labels

  datatype Trend = Stable | Rising | Falling

  /** Python's `round(x, 4)`. */
  function Round4(x: real): real {
    Round(x * 10000.0) as real / 10000.0
  }

  function PerMinute(slope: Option<real>): real {
    Round4(slope.GetOr(0.0) * 60.0)
  }

  function Label(rate: real, stable: real): Trend {
    if -stable < rate < stable then Stable else if rate > 0.0 then Rising else Falling
  }

  /** The label of a history; fewer than two samples are always stable. */
  function TrendOf(ts: seq<Option<real>>, vs: seq<Option<real>>, weight: real -> real, stable: real): Trend
    requires Positive(weight)
  {
    if |Valid(ts, vs)| < 2 then Stable else Label(PerMinute(WeightedSlope(ts, vs, weight)), stable)
  }

  lemma Round4Monotone(x: real, y: real)
    requires x <= y
    ensures Round4(x) <= Round4(y)
  {
    RoundMonotone(x * 10000.0, y * 10000.0);
  }

  lemma LabelFollowsSlope(slope: real, stable: real, rate: real)
    requires stable > 0.0
    ensures slope >= rate >= 0.0 ==> Label(Round4(slope * 60.0), stable) != Falling
    ensures slope <= rate <= 0.0 ==> Label(Round4(slope * 60.0), stable) != Rising
    ensures slope >= rate && Round4(rate * 60.0) >= stable ==> Label(Round4(slope * 60.0), stable) == Rising
    ensures slope <= rate && Round4(rate * 60.0) <= -stable ==> Label(Round4(slope * 60.0), stable) == Falling
  {
    if slope >= rate { Round4Monotone(rate * 60.0, slope * 60.0); }
    if slope <= rate { Round4Monotone(slope * 60.0, rate * 60.0); }
    if rate >= 0.0 { Round4Monotone(0.0, rate * 60.0); }
    if rate <= 0.0 { Round4Monotone(rate * 60.0, 0.0); }
  }
}
