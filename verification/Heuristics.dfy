/**
 How the heuristic score depends on each metric: direction, scale, the values
 that missing metrics stand for, and how scores and costs become shares.
 */
module Heuristics {
  import opened Options
  import opened Products
  import opened Scoring

  // ----- Direction

  /** No smaller, and missing in both or in neither. */
  predicate Raised(x: Option<real>, y: Option<real>) {
    (x.Some? <==> y.Some?) && (x.Some? ==> x.value <= y.value)
  }

  /** The second metrics are the first with nothing better; a forecast may have come in. */
  predicate Worse(m: Metrics, m': Metrics) {
    && m.status == m'.status && m.cost == m'.cost
    && Raised(m.latency, m'.latency) && Raised(m.loss, m'.loss) && Raised(m.jitter, m'.jitter)
    && Raised(m'.signal, m.signal) && Raised(m.ecn, m'.ecn) && Raised(m.congestion, m'.congestion)
    && (m.predicted.Some? ==> Raised(m.predicted, m'.predicted))
  }

  lemma WorseQuality(m: Metrics, m': Metrics)
    requires Worse(m, m') && m.latency.Some?
    ensures Quality(m') <= Quality(m)
  {
    FallingMonotone(m.latency.value, m'.latency.value, 500.0);
    if m.loss.Some? { FallingMonotone(m.loss.value, m'.loss.value, 100.0); }
    if m.jitter.Some? { FallingMonotone(m.jitter.value, m'.jitter.value, 500.0); }
    if m.ecn.Some? { FallingMonotone(m.ecn.value, m'.ecn.value, 1000.0); }
  }

  /**
   Raising latency, loss, jitter, ECN marks, congestion or its forecast of one interface, or lowering
   its signal, never raises its share nor lowers another's.
   */
  lemma WorseGetsLess(ms: seq<Metrics>, i: int, m': Metrics)
    requires 0 <= i < |ms| && Worse(ms[i], m')
    requires SignalsNonNegative(ms) && SignalsNonNegative(ms[i := m'])
    ensures var before, after := Heuristic(ms), Heuristic(ms[i := m']);
            && |before| == |after| == |ms|
            && after[i] <= before[i]
            && forall j :: 0 <= j < |ms| && j != i ==> before[j] <= after[j]
  {
    var ms' := ms[i := m'];
    ScoresNonNegative(ms);
    ScoresNonNegative(ms');
    if Online(ms[i]) { WorseQuality(ms[i], m'); }
    assert Costs(ms') == Costs(ms);
    RawMonotone(Scores(ms), Scores(ms'), Costs(ms), i);
  }

  // ----- Scale

  predicate Within(x: Option<real>, lo: real, hi: real) {
    x.Some? ==> lo <= x.value <= hi
  }

  /** Metrics as the router measures them: nothing negative, and a signal quality in percent. */
  predicate Measured(m: Metrics) {
    && (m.latency.Some? ==> m.latency.value >= 0.0) && (m.loss.Some? ==> m.loss.value >= 0.0)
    && (m.jitter.Some? ==> m.jitter.value >= 0.0) && (m.ecn.Some? ==> m.ecn.value >= 0.0)
    && (m.congestion.Some? ==> m.congestion.value >= 0.0) && Within(m.signal, 0.0, 100.0)
  }

  lemma FallingScale(x: real, ceiling: real)
    requires ceiling > 0.0
    ensures 0.0 <= x <= ceiling ==> Falling(x, ceiling) == 1.0 - x / ceiling
    ensures x >= ceiling ==> Falling(x, ceiling) == 0.0
    ensures x >= 0.0 ==> 0.0 <= Falling(x, ceiling) <= 1.0
  {
    var q := Quotient(Min(x, ceiling), ceiling);
    if x >= ceiling { assert ceiling / ceiling == 1.0; }
    if 0.0 <= x <= ceiling { Cancel(q, 1.0, ceiling, x, ceiling); }
  }

  /** Scores lie between 0 and 1. */
  lemma ScoreRange(m: Metrics)
    requires Measured(m)
    ensures 0.0 <= Score(m) <= 1.0
  {
    if Online(m) {
      FallingScale(m.latency.value, 500.0);
      if m.loss.Some? { FallingScale(m.loss.value, 100.0); }
      if m.jitter.Some? { FallingScale(m.jitter.value, 500.0); }
      if m.ecn.Some? { FallingScale(m.ecn.value, 1000.0); }
    }
  }

  /** Ideal metrics score 1, with and without a congestion measure; the worst score 0. */
  lemma ScoreEnds(m: Metrics)
    requires m.latency.Some? && m.loss.Some? && m.jitter.Some? && m.signal.Some?
    ensures (&& m.latency.value == 0.0 && m.loss.value == 0.0 && m.jitter.value == 0.0 && m.signal.value == 100.0
             && (m.ecn.Some? ==> m.ecn.value == 0.0) && (m.congestion.Some? ==> m.congestion.value == 0.0)
             && (m.predicted.Some? ==> m.predicted.value <= 0.0)) ==> Quality(m) == 1.0
    ensures (&& m.latency.value >= 500.0 && m.loss.value >= 100.0 && m.jitter.value >= 500.0 && m.signal.value == 0.0
             && m.ecn.Some? && m.ecn.value >= 1000.0
             && (m.congestion.Some? ==> m.congestion.value >= 100.0)) ==> Quality(m) == 0.0
  {
    FallingScale(m.latency.value, 500.0);
    FallingScale(m.loss.value, 100.0);
    FallingScale(m.jitter.value, 500.0);
    if m.ecn.Some? { FallingScale(m.ecn.value, 1000.0); }
  }

  /** What a metric is worth depends on whether congestion is measured. */
  function Worth(m: Metrics, with: real, without: real): real {
    if m.congestion.Some? then with else without
  }

  /** Each metric counts linearly up to its ceiling, with the stated worth over the whole of its range. */
  lemma LatencyScale(m: Metrics, x: real, y: real)
    requires 0.0 <= x <= 500.0 && 0.0 <= y <= 500.0
    ensures Quality(m.(latency := Some(x))) - Quality(m.(latency := Some(y))) == Worth(m, 0.35, 0.50) * (y - x) / 500.0
  {
    FallingScale(x, 500.0);
    FallingScale(y, 500.0);
  }

  lemma LossScale(m: Metrics, x: real, y: real)
    requires m.latency.Some? && 0.0 <= x <= 100.0 && 0.0 <= y <= 100.0
    ensures Quality(m.(loss := Some(x))) - Quality(m.(loss := Some(y))) == Worth(m, 0.15, 0.22) * (y - x) / 100.0
  {
    FallingScale(x, 100.0);
    FallingScale(y, 100.0);
  }

  lemma JitterScale(m: Metrics, x: real, y: real)
    requires m.latency.Some? && 0.0 <= x <= 500.0 && 0.0 <= y <= 500.0
    ensures Quality(m.(jitter := Some(x))) - Quality(m.(jitter := Some(y))) == Worth(m, 0.10, 0.15) * (y - x) / 500.0
  {
    FallingScale(x, 500.0);
    FallingScale(y, 500.0);
  }

  lemma SignalScale(m: Metrics, x: real, y: real)
    requires m.latency.Some? && 0.0 <= x <= 100.0 && 0.0 <= y <= 100.0
    ensures Quality(m.(signal := Some(x))) - Quality(m.(signal := Some(y))) == Worth(m, 0.05, 0.07) * (x - y) / 100.0
  {
  }

  lemma EcnScale(m: Metrics, x: real, y: real)
    requires m.latency.Some? && 0.0 <= x <= 1000.0 && 0.0 <= y <= 1000.0
    ensures Quality(m.(ecn := Some(x))) - Quality(m.(ecn := Some(y))) == Worth(m, 0.05, 0.06) * (y - x) / 1000.0
  {
    FallingScale(x, 1000.0);
    FallingScale(y, 1000.0);
  }

  lemma CongestionScale(m: Metrics, x: real, y: real)
    requires m.latency.Some? && m.predicted.None? && 0.0 <= x <= 100.0 && 0.0 <= y <= 100.0
    ensures Quality(m.(congestion := Some(x))) - Quality(m.(congestion := Some(y))) == 0.30 * (y - x) / 100.0
  {
  }

  /** The forecast replaces a smaller congestion, and counts for nothing where none is measured. */
  lemma ForecastCounts(m: Metrics, c: real, p: real)
    requires m.latency.Some?
    ensures Quality(m.(congestion := Some(c), predicted := Some(p))) ==
            Quality(m.(congestion := Some(if p > c then p else c), predicted := None))
    ensures Quality(m.(congestion := None, predicted := Some(p))) == Quality(m.(congestion := None, predicted := None))
  {
  }

  /** Past its ceiling a metric counts as at the ceiling. */
  lemma Saturation(m: Metrics, x: real)
    requires m.latency.Some?
    ensures x >= 500.0 ==> Quality(m.(latency := Some(x))) == Quality(m.(latency := Some(500.0)))
    ensures x >= 100.0 ==> Quality(m.(loss := Some(x))) == Quality(m.(loss := Some(100.0)))
    ensures x >= 500.0 ==> Quality(m.(jitter := Some(x))) == Quality(m.(jitter := Some(500.0)))
    ensures x >= 100.0 ==> Quality(m.(signal := Some(x))) == Quality(m.(signal := Some(100.0)))
    ensures x >= 1000.0 ==> Quality(m.(ecn := Some(x))) == Quality(m.(ecn := Some(1000.0)))
    ensures x >= 100.0 && m.predicted.None? ==> Quality(m.(congestion := Some(x))) == Quality(m.(congestion := Some(100.0)))
  {
  }

  /** A missing loss, jitter or signal counts as the middle of its range, missing ECN marks as none. */
  lemma MissingCountsAs(m: Metrics)
    requires m.latency.Some?
    ensures Quality(m.(loss := None)) == Quality(m.(loss := Some(50.0)))
    ensures Quality(m.(jitter := None)) == Quality(m.(jitter := Some(250.0)))
    ensures Quality(m.(signal := None)) == Quality(m.(signal := Some(50.0)))
    ensures Quality(m.(ecn := None)) == Quality(m.(ecn := Some(0.0)))
  {
  }

  /** An interface counts exactly when its latency is known and its status missing, empty or "online"; otherwise it scores 0. */
  lemma OnlineIff(m: Metrics)
    ensures Online(m) <==> m.latency.Some? && (m.status == None || m.status == Some("") || m.status == Some("online"))
    ensures Score(m) == if Online(m) then Quality(m) else 0.0
  {
  }

  /** For instance, losing everything costs the one interface 22 points of 87. */
  lemma LossInstance()
    ensures var good := Metrics(None, Some(20.0), Some(0.0), None, None, None, None, None, None);
            Score(good) == 0.87 && Score(good.(loss := Some(100.0))) == 0.65
  {
  }

  // ----- From scores and costs to shares

  /** What a missing, zero or negative cost stands for. */
  function CostOf(cost: Option<real>): real {
    if cost.Some? && cost.value > 0.0 then cost.value else 1.0
  }

  lemma FactorOfCost(cost: Option<real>)
    ensures CostOf(cost) > 0.0 && Times(CostFactor(cost), CostOf(cost), 1.0)
  {
    if Priced(cost) { var q := Quotient(1.0, cost.value); }
  }

  /** Two shares are to each other as score over cost: x over a to y over b. */
  predicate InProportion(shareX: real, shareY: real, x: real, y: real, a: real, b: real) {
    shareX * (y * a) == shareY * (x * b)
  }

  lemma Regain(x: real, f: real, a: real, p: real)
    requires Times(f, a, 1.0) && Times(x, f, p)
    ensures Times(p, a, x)
  {
    assert p * a == x * (f * a);
  }

  lemma CrossMultiply(x: real, y: real, a: real, b: real, p: real, q: real, total: real, shareX: real, shareY: real)
    requires total > 0.0 && Times(p, a, x) && Times(q, b, y)
    requires Times(shareX, total, p) && Times(shareY, total, q)
    ensures InProportion(shareX, shareY, x, y, a, b)
  {
    assert y * a == q * (b * a) && x * b == p * (a * b);
    assert (shareX * (y * a)) * total == p * (y * a);
    assert (shareY * (x * b)) * total == q * (x * b);
    Swap(p, q, a, b);
    Cancel(shareX * (y * a), shareY * (x * b), total, p * (y * a), q * (x * b));
  }

  lemma Swap(p: real, q: real, a: real, b: real)
    ensures p * (q * (b * a)) == q * (p * (a * b))
  {
  }

  lemma CostRegained(raw: real, cost: Option<real>)
    ensures Times(CostedScore(raw, cost), CostOf(cost), raw)
  {
    FactorOfCost(cost);
    Regain(raw, CostFactor(cost), CostOf(cost), CostedScore(raw, cost));
  }

  lemma {:induction false} CostedShare(raw: seq<real>, costs: seq<Option<real>>, i: int)
    requires |raw| == |costs| && NonNegative(raw) && 0 <= i < |raw| && Sum(Costed(raw, costs)) > 0.0
    ensures |ApplyCost(raw, costs)| == |raw|
    ensures Times(ApplyCost(raw, costs)[i], Sum(Costed(raw, costs)), CostedScore(raw[i], costs[i]))
  {
    CostedNonNegative(raw, costs);
    ShareScales(Costed(raw, costs), i);
  }

  lemma {:induction false} Proportion(raw: seq<real>, costs: seq<Option<real>>, i: int, j: int)
    requires |raw| == |costs| && NonNegative(raw) && 0 <= i < |raw| && 0 <= j < |raw|
    requires Sum(Costed(raw, costs)) > 0.0
    ensures |ApplyCost(raw, costs)| == |raw|
    ensures InProportion(ApplyCost(raw, costs)[i], ApplyCost(raw, costs)[j], raw[i], raw[j], CostOf(costs[i]), CostOf(costs[j]))
  {
    CostedShare(raw, costs, i);
    CostedShare(raw, costs, j);
    CostRegained(raw[i], costs[i]);
    CostRegained(raw[j], costs[j]);
    CrossMultiply(raw[i], raw[j], CostOf(costs[i]), CostOf(costs[j]), CostedScore(raw[i], costs[i]),
                  CostedScore(raw[j], costs[j]), Sum(Costed(raw, costs)), ApplyCost(raw, costs)[i], ApplyCost(raw, costs)[j]);
  }

  lemma {:induction false} SomeScoreSums(raw: seq<real>, costs: seq<Option<real>>, k: int)
    requires |raw| == |costs| && NonNegative(raw) && 0 <= k < |raw| && raw[k] > 0.0
    ensures Sum(Costed(raw, costs)) > 0.0
  {
    CostedNonNegative(raw, costs);
    FactorPositive(costs[k]);
    var z := Product(raw[k], CostFactor(costs[k]));
    SumBounds(Costed(raw, costs));
  }

  /** Shares are in proportion to score over cost. */
  lemma {:induction false} SharesInProportion(ms: seq<Metrics>, i: int, j: int)
    requires SignalsNonNegative(ms) && 0 <= i < |ms| && 0 <= j < |ms|
    requires exists k :: 0 <= k < |ms| && Score(ms[k]) > 0.0
    ensures |Heuristic(ms)| == |ms|
    ensures InProportion(Heuristic(ms)[i], Heuristic(ms)[j], Score(ms[i]), Score(ms[j]), CostOf(ms[i].cost), CostOf(ms[j].cost))
  {
    ScoresNonNegative(ms);
    var k :| 0 <= k < |ms| && Score(ms[k]) > 0.0;
    SomeScoreSums(Scores(ms), Costs(ms), k);
    Proportion(Scores(ms), Costs(ms), i, j);
  }
}
