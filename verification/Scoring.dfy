/**
 The heuristic scorer: interface metrics to a share of the traffic, corrected
 by the cost of each interface, and on to smoothed integer weights.
 */
module Scoring {
  import opened Options
  import opened Products
  import Smoothing

  /** `predicted` is the congestion forecast, present when the history allows one. */
  datatype Metrics = Metrics(status: Option<string>, latency: Option<real>, loss: Option<real>, jitter: Option<real>,
                             signal: Option<real>, ecn: Option<real>, congestion: Option<real>,
                             predicted: Option<real>, cost: Option<real>)

  function Min(x: real, y: real): real { if x <= y then x else y }
  function Max(x: real, y: real): real { if x >= y then x else y }

  /** 1 at 0, falling linearly to 0 at the ceiling and staying there. */
  function Falling(x: real, ceiling: real): real
    requires ceiling > 0.0
  {
    Max(0.0, 1.0 - Min(x, ceiling) / ceiling)
  }

  predicate Online(m: Metrics) {
    !(m.status.Some? && m.status.value != "" && m.status.value != "online") && m.latency.Some?
  }

  function Quality(m: Metrics): real
    requires m.latency.Some?
  {
    var latQ := Falling(m.latency.value, 500.0);
    var lossQ := if m.loss.Some? then Falling(m.loss.value, 100.0) else 0.5;
    var jitterQ := if m.jitter.Some? then Falling(m.jitter.value, 500.0) else 0.5;
    var signalQ := if m.signal.Some? then Min(m.signal.value, 100.0) / 100.0 else 0.5;
    var ecnQ := if m.ecn.Some? then Falling(m.ecn.value, 1000.0) else 1.0;
    if m.congestion.Some? then
      var worst := if m.predicted.Some? then Max(m.congestion.value, m.predicted.value) else m.congestion.value;
      var congQ := Max(0.0, 100.0 - worst) / 100.0;
      0.35 * latQ + 0.30 * congQ + 0.15 * lossQ + 0.10 * jitterQ + 0.05 * signalQ + 0.05 * ecnQ
    else
      0.50 * latQ + 0.22 * lossQ + 0.15 * jitterQ + 0.07 * signalQ + 0.06 * ecnQ
  }

  function Score(m: Metrics): real {
    if Online(m) then Quality(m) else 0.0
  }

  predicate Priced(cost: Option<real>) {
    cost.Some? && cost.value > 0.0
  }

  function CostFactor(cost: Option<real>): real {
    if Priced(cost) then 1.0 / cost.value else 1.0
  }

  function Sum(s: seq<real>): real {
    if s == [] then 0.0 else s[0] + Sum(s[1..])
  }

  /** Scores divided by their sum; equal shares when the sum is 0. */
  function Shares(s: seq<real>): (r: seq<real>)
    ensures |r| == |s|
  {
    var total := Sum(s);
    if total == 0.0 then seq(|s|, i requires 0 <= i < |s| => 1.0 / |s| as real)
    else seq(|s|, i requires 0 <= i < |s| => s[i] / total)
  }

  function Costed(raw: seq<real>, costs: seq<Option<real>>): (r: seq<real>)
    requires |raw| == |costs|
    ensures |r| == |raw| && forall i :: 0 <= i < |raw| ==> r[i] == CostedScore(raw[i], costs[i])
  {
    seq(|raw|, i requires 0 <= i < |raw| => CostedScore(raw[i], costs[i]))
  }

  function CostedScore(raw: real, cost: Option<real>): real {
    raw * CostFactor(cost)
  }

  function ApplyCost(raw: seq<real>, costs: seq<Option<real>>): seq<real>
    requires |raw| == |costs|
  {
    Shares(Costed(raw, costs))
  }

  function Scores(ms: seq<Metrics>): (r: seq<real>)
    ensures |r| == |ms| && forall i :: 0 <= i < |ms| ==> r[i] == Score(ms[i])
  {
    seq(|ms|, i requires 0 <= i < |ms| => Score(ms[i]))
  }

  function Costs(ms: seq<Metrics>): (r: seq<Option<real>>)
    ensures |r| == |ms| && forall i :: 0 <= i < |ms| ==> r[i] == ms[i].cost
  {
    seq(|ms|, i requires 0 <= i < |ms| => ms[i].cost)
  }

  /** Shares of the interfaces, in dictionary order. */
  function Heuristic(ms: seq<Metrics>): seq<real> {
    ApplyCost(Scores(ms), Costs(ms))
  }

  method ComputeWeightsHeuristic(ms: seq<Metrics>) returns (shares: seq<real>)
    ensures shares == Heuristic(ms)
  {
    var raw: seq<real> := [];
    for i := 0 to |ms|
      invariant |raw| == i && forall j :: 0 <= j < i ==> raw[j] == Score(ms[j])
    {
      if !Online(ms[i]) {
        raw := raw + [0.0];
      } else {
        var quality := Quality(ms[i]);
        raw := raw + [quality];
      }
    }
    assert raw == Scores(ms);
    shares := ApplyCost(raw, Costs(ms));
  }

  // ----- Shares

  ghost predicate NonNegative(s: seq<real>) {
    forall i :: 0 <= i < |s| ==> s[i] >= 0.0
  }

  lemma {:induction false} SumBounds(s: seq<real>)
    requires NonNegative(s)
    ensures Sum(s) >= 0.0
    ensures forall i :: 0 <= i < |s| ==> s[i] <= Sum(s)
    ensures Sum(s) == 0.0 ==> forall i :: 0 <= i < |s| ==> s[i] == 0.0
  {
    if s != [] {
      SumBounds(s[1..]);
      assert forall i :: 0 < i < |s| ==> s[i] == s[1..][i - 1];
    }
  }

  lemma {:induction false} SumOfConstant(s: seq<real>, x: real)
    requires forall i :: 0 <= i < |s| ==> s[i] == x
    ensures Sum(s) == |s| as real * x
  {
    if s != [] {
      SumOfConstant(s[1..], x);
      assert |s| as real == 1.0 + |s[1..]| as real;
      Distribute(x, 1.0, |s[1..]| as real);
    }
  }

  ghost predicate ScaledBy(s: seq<real>, r: seq<real>, k: real) {
    |s| == |r| && forall i :: 0 <= i < |s| ==> Times(r[i], k, s[i])
  }

  lemma {:induction false} SumScaled(s: seq<real>, r: seq<real>, k: real)
    requires ScaledBy(s, r, k)
    ensures Sum(r) * k == Sum(s)
  {
    if s != [] {
      SumScaled(s[1..], r[1..], k);
      Distribute(k, r[0], Sum(r[1..]));
    }
  }

  lemma ShareScales(s: seq<real>, i: nat)
    requires i < |s| && s[i] >= 0.0 && Sum(s) > 0.0
    ensures Shares(s)[i] >= 0.0 && Times(Shares(s)[i], Sum(s), s[i])
  {
    var q := Quotient(s[i], Sum(s));
  }

  lemma SharesScale(s: seq<real>)
    requires NonNegative(s) && Sum(s) > 0.0
    ensures NonNegative(Shares(s)) && ScaledBy(s, Shares(s), Sum(s))
  {
    forall i | 0 <= i < |s| ensures Shares(s)[i] >= 0.0 && Times(Shares(s)[i], Sum(s), s[i]) {
      ShareScales(s, i);
    }
  }

  /** Shares of non-negative scores are a distribution. */
  lemma SharesAreDistribution(s: seq<real>)
    requires s != [] && NonNegative(s)
    ensures NonNegative(Shares(s)) && Sum(Shares(s)) == 1.0
  {
    SumBounds(s);
    var r := Shares(s);
    if Sum(s) == 0.0 {
      var q := Quotient(1.0, |s| as real);
      SumOfConstant(r, q);
    } else {
      SharesScale(s);
      SumScaled(s, r, Sum(s));
      CancelToOne(Sum(r), Sum(s), Sum(s));
    }
  }

  ghost predicate DiffersOnlyAt(s: seq<real>, t: seq<real>, i: int) {
    |s| == |t| && 0 <= i < |s| && forall j :: 0 <= j < |s| && j != i ==> s[j] == t[j]
  }

  lemma {:induction false} SumDifference(s: seq<real>, t: seq<real>, i: int)
    requires DiffersOnlyAt(s, t, i)
    ensures Sum(t) - Sum(s) == t[i] - s[i]
  {
    if i == 0 {
      assert s[1..] == t[1..];
    } else {
      SumDifference(s[1..], t[1..], i - 1);
    }
  }

  /** Lowering one score lowers that share at most, and raises the others at most. */
  lemma SharesMonotone(s: seq<real>, t: seq<real>, i: int)
    requires NonNegative(s) && NonNegative(t) && DiffersOnlyAt(s, t, i) && t[i] <= s[i]
    ensures Shares(t)[i] <= Shares(s)[i]
    ensures forall j :: 0 <= j < |s| && j != i ==> Shares(s)[j] <= Shares(t)[j]
  {
    SumBounds(s);
    SumBounds(t);
    SumDifference(s, t, i);
    if Sum(s) == 0.0 {
      assert s == t;
    } else if Sum(t) == 0.0 {
      SharesScale(s);
      LastOneDropped(s, i);
      var q := Quotient(1.0, |s| as real);
      Cancel(q, 1.0, |s| as real, 1.0, |s| as real);
    } else {
      SmallerShare(t[i], s[i], Sum(s) - s[i]);
      forall j | 0 <= j < |s| && j != i ensures Shares(s)[j] <= Shares(t)[j] {
        LargerShare(s[j], Sum(t), Sum(s));
      }
    }
  }

  lemma LastOneDropped(s: seq<real>, i: int)
    requires 0 <= i < |s| && Sum(s) > 0.0 && Sum(s) == s[i]
    requires forall j :: 0 <= j < |s| && j != i ==> s[j] == 0.0
    ensures Shares(s)[i] == 1.0
    ensures forall j :: 0 <= j < |s| && j != i ==> Shares(s)[j] == 0.0
  {
    var one := Quotient(s[i], Sum(s));
    CancelToOne(one, Sum(s), s[i]);
    var zero := Quotient(0.0, Sum(s));
  }

  lemma SmallerShare(x: real, y: real, rest: real)
    requires 0.0 <= x <= y && rest >= 0.0 && rest + x > 0.0
    ensures x / (rest + x) <= y / (rest + y)
  {
    LargerShare(rest, rest + x, rest + y);
    Complement(x, rest);
    Complement(y, rest);
  }

  lemma Complement(x: real, rest: real)
    requires rest + x > 0.0
    ensures x / (rest + x) == 1.0 - rest / (rest + x)
  {
    var p := Quotient(x, rest + x);
    var q := Quotient(rest, rest + x);
    Distribute(rest + x, p, q);
    Cancel(p + q, 1.0, rest + x, rest + x, rest + x);
  }

  lemma LargerShare(x: real, small: real, big: real)
    requires x >= 0.0 && 0.0 < small <= big
    ensures x / big <= x / small
  {
    var p := Quotient(x, big);
    var q := Quotient(x, small);
    var z := Product(p, big - small);
    Distribute(p, big, -small);
    Cancel(p, q, small, p * small, x);
  }

  // ----- Cost and quality

  lemma CostedNonNegative(raw: seq<real>, costs: seq<Option<real>>)
    requires |raw| == |costs| && NonNegative(raw)
    ensures NonNegative(Costed(raw, costs))
    ensures forall i :: 0 <= i < |raw| ==> (Costed(raw, costs)[i] == 0.0 <==> raw[i] == 0.0)
  {
    forall i | 0 <= i < |raw| ensures Costed(raw, costs)[i] >= 0.0 && (Costed(raw, costs)[i] == 0.0 <==> raw[i] == 0.0) {
      FactorPositive(costs[i]);
      var z := Product(raw[i], CostFactor(costs[i]));
    }
  }

  lemma FactorPositive(cost: Option<real>)
    ensures CostFactor(cost) > 0.0
  {
    if Priced(cost) { var q := Quotient(1.0, cost.value); }
  }

  lemma DearerScore(raw: real, lower: Option<real>, cost: real)
    requires raw >= 0.0 && Priced(lower) && lower.value <= cost
    ensures CostedScore(raw, Some(cost)) <= CostedScore(raw, lower)
  {
    LargerShare(1.0, lower.value, cost);
    LowerProduct(CostFactor(Some(cost)), CostFactor(lower), raw);
  }

  /** Raising the positive cost of one interface never raises its share nor lowers another's. */
  lemma CostMonotone(raw: seq<real>, costs: seq<Option<real>>, i: int, cost: real)
    requires |raw| == |costs| && NonNegative(raw) && 0 <= i < |raw|
    requires Priced(costs[i]) && costs[i].value <= cost
    ensures var before, after := ApplyCost(raw, costs), ApplyCost(raw, costs[i := Some(cost)]);
            && after[i] <= before[i]
            && forall j :: 0 <= j < |raw| && j != i ==> before[j] <= after[j]
  {
    var costs' := costs[i := Some(cost)];
    CostedNonNegative(raw, costs);
    CostedNonNegative(raw, costs');
    DearerScore(raw[i], costs[i], cost);
    SharesMonotone(Costed(raw, costs), Costed(raw, costs'), i);
  }

  function ScaleCost(cost: Option<real>, k: real): Option<real> {
    if Priced(cost) then Some(cost.value * k) else cost
  }

  /** All positive costs multiplied by k. */
  function ScaleCosts(costs: seq<Option<real>>, k: real): (r: seq<Option<real>>)
    ensures |r| == |costs| && forall i :: 0 <= i < |costs| ==> r[i] == ScaleCost(costs[i], k)
  {
    seq(|costs|, i requires 0 <= i < |costs| => ScaleCost(costs[i], k))
  }

  lemma ScaledFactor(raw: real, cost: Option<real>, k: real)
    requires k > 0.0
    ensures Priced(cost) ==> Priced(ScaleCost(cost, k)) && CostedScore(raw, ScaleCost(cost, k)) * k == CostedScore(raw, cost)
    ensures !Priced(cost) ==> CostedScore(raw, ScaleCost(cost, k)) == CostedScore(raw, cost)
    ensures raw == 0.0 ==> CostedScore(raw, ScaleCost(cost, k)) == 0.0 == CostedScore(raw, cost)
  {
    if Priced(cost) {
      var c := cost.value;
      var ck := Product(c, k);
      var f := Quotient(1.0, c);
      var f' := Quotient(1.0, ck);
      Reciprocals(f, f', c, ck, k);
      Regroup(raw, f', k, f);
    }
  }

  lemma Reciprocals(f: real, f': real, c: real, ck: real, k: real)
    requires c > 0.0 && ck == c * k && f * c == 1.0 && f' * ck == 1.0
    ensures f' * k == f
  {
    assert f' * k * c == 1.0;
    Cancel(f' * k, f, c, 1.0, 1.0);
  }

  lemma Regroup(raw: real, f: real, k: real, fk: real)
    requires f * k == fk
    ensures raw * f * k == raw * fk
  {
  }

  lemma SameShare(s: seq<real>, t: seq<real>, k: real, i: nat)
    requires i < |s| == |t| && k > 0.0 && Sum(s) > 0.0 && Sum(t) > 0.0
    requires Times(t[i], k, s[i]) && Times(Sum(t), k, Sum(s))
    ensures Shares(s)[i] == Shares(t)[i]
  {
    SameQuotient(s[i], t[i], Sum(s), Sum(t), k);
  }

  /** Shares do not depend on a common positive factor of the scores. */
  lemma SharesOfScaled(s: seq<real>, t: seq<real>, k: real)
    requires k > 0.0 && NonNegative(s) && NonNegative(t) && ScaledBy(s, t, k)
    ensures Shares(s) == Shares(t)
  {
    SumBounds(s);
    SumBounds(t);
    SumScaled(s, t, k);
    if Sum(t) == 0.0 {
      assert 0.0 * k == 0.0;
    } else {
      var z := Product(Sum(t), k);
      forall i | 0 <= i < |s| ensures Shares(s)[i] == Shares(t)[i] { SameShare(s, t, k, i); }
    }
  }

  lemma SameQuotient(x: real, y: real, totalX: real, totalY: real, k: real)
    requires k > 0.0 && totalX > 0.0 && totalY > 0.0 && y * k == x && totalY * k == totalX
    ensures x / totalX == y / totalY
  {
    var q := Quotient(x, totalX);
    var r := Quotient(y, totalY);
    Regroup(r, totalY, k, totalX);
    assert r * totalY * k == y * k;
    Cancel(q, r, totalX, x, x);
  }

  /** Scores that differ and leave some common positive score in place change the shares. */
  lemma SharesDiffer(s: seq<real>, t: seq<real>, i: int, j: int)
    requires |s| == |t| && NonNegative(s) && NonNegative(t) && 0 <= i < |s| && 0 <= j < |s|
    requires s[j] == t[j] > 0.0 && s[i] != t[i]
    ensures Shares(s) != Shares(t)
  {
    SumBounds(s);
    SumBounds(t);
    if Shares(s) == Shares(t) {
      assert Shares(s)[i] == Shares(t)[i] && Shares(s)[j] == Shares(t)[j];
      TotalsFromShare(s[j], Sum(s), Sum(t));
      ScoresFromShare(s[i], t[i], Sum(s), Sum(t));
    }
  }

  lemma TotalsFromShare(x: real, s: real, t: real)
    requires x > 0.0 && s > 0.0 && t > 0.0 && x / s == x / t
    ensures s == t
  {
    var p := Quotient(x, s);
    var q := Quotient(x, t);
    assert s * p == x && t * p == x;
    Cancel(s, t, p, x, x);
  }

  lemma ScoresFromShare(x: real, y: real, s: real, t: real)
    requires s > 0.0 && s == t && x / s == y / t
    ensures x == y
  {
    var p := Quotient(x, s);
    var q := Quotient(y, t);
  }

  /** Some interface with a positive score has a positive cost; and some has none. */
  ghost predicate Mixed(raw: seq<real>, costs: seq<Option<real>>)
    requires |raw| == |costs|
  {
    && (exists i :: 0 <= i < |raw| && raw[i] > 0.0 && Priced(costs[i]))
    && (exists i :: 0 <= i < |raw| && raw[i] > 0.0 && !Priced(costs[i]))
  }

  lemma CostedScale(raw: seq<real>, costs: seq<Option<real>>, k: real)
    requires |raw| == |costs| && k > 0.0
    ensures forall i :: 0 <= i < |raw| && (Priced(costs[i]) || raw[i] == 0.0) ==>
              Costed(raw, ScaleCosts(costs, k))[i] * k == Costed(raw, costs)[i]
    ensures forall i :: 0 <= i < |raw| && (!Priced(costs[i]) || raw[i] == 0.0) ==>
              Costed(raw, ScaleCosts(costs, k))[i] == Costed(raw, costs)[i]
  {
    forall i | 0 <= i < |raw|
      ensures Priced(costs[i]) || raw[i] == 0.0 ==> Costed(raw, ScaleCosts(costs, k))[i] * k == Costed(raw, costs)[i]
      ensures !Priced(costs[i]) || raw[i] == 0.0 ==> Costed(raw, ScaleCosts(costs, k))[i] == Costed(raw, costs)[i]
    {
      ScaledFactor(raw[i], costs[i], k);
      assert 0.0 * k == 0.0;
    }
  }

  lemma ScaledDiffers(before: real, after: real, k: real)
    requires before > 0.0 && after * k == before && k != 1.0
    ensures after != before
  {
    if after == before { CancelToOne(k, after, before); }
  }

  lemma MixedScaleChanges(raw: seq<real>, costs: seq<Option<real>>, k: real)
    requires |raw| == |costs| && NonNegative(raw) && k > 0.0 && k != 1.0 && Mixed(raw, costs)
    ensures ApplyCost(raw, ScaleCosts(costs, k)) != ApplyCost(raw, costs)
  {
    var i :| 0 <= i < |raw| && raw[i] > 0.0 && Priced(costs[i]);
    var j :| 0 <= j < |raw| && raw[j] > 0.0 && !Priced(costs[j]);
    CostedNonNegative(raw, costs);
    CostedNonNegative(raw, ScaleCosts(costs, k));
    ScaledPair(raw, costs, k, i, j);
    SharesDiffer(Costed(raw, costs), Costed(raw, ScaleCosts(costs, k)), i, j);
  }

  /** Scaling moves the score of a priced interface but not of an unpriced one. */
  lemma ScaledPair(raw: seq<real>, costs: seq<Option<real>>, k: real, i: int, j: int)
    requires |raw| == |costs| && NonNegative(raw) && k > 0.0 && k != 1.0
    requires 0 <= i < |raw| && raw[i] > 0.0 && Priced(costs[i])
    requires 0 <= j < |raw| && raw[j] > 0.0 && !Priced(costs[j])
    ensures Costed(raw, costs)[j] == Costed(raw, ScaleCosts(costs, k))[j] > 0.0
    ensures Costed(raw, costs)[i] != Costed(raw, ScaleCosts(costs, k))[i]
  {
    CostedNonNegative(raw, costs);
    ScaledFactor(raw[i], costs[i], k);
    ScaledFactor(raw[j], costs[j], k);
    ScaledDiffers(Costed(raw, costs)[i], Costed(raw, ScaleCosts(costs, k))[i], k);
  }

  lemma UnmixedScaleKeeps(raw: seq<real>, costs: seq<Option<real>>, k: real)
    requires |raw| == |costs| && NonNegative(raw) && k > 0.0 && !Mixed(raw, costs)
    ensures ApplyCost(raw, ScaleCosts(costs, k)) == ApplyCost(raw, costs)
  {
    var before, after := Costed(raw, costs), Costed(raw, ScaleCosts(costs, k));
    CostedNonNegative(raw, costs);
    CostedNonNegative(raw, ScaleCosts(costs, k));
    CostedScale(raw, costs, k);
    if forall i :: 0 <= i < |raw| && raw[i] > 0.0 ==> Priced(costs[i]) {
      SharesOfScaled(before, after, k);
    } else {
      assert before == after;
    }
  }

  /**
   Multiplying every positive cost by the same k leaves the shares unchanged exactly when k is 1
   or no priced and unpriced interfaces compete for traffic: a missing cost counts as 1.
   */
  lemma CostScaleIff(raw: seq<real>, costs: seq<Option<real>>, k: real)
    requires |raw| == |costs| && NonNegative(raw) && k > 0.0
    ensures ApplyCost(raw, ScaleCosts(costs, k)) == ApplyCost(raw, costs) <==> k == 1.0 || !Mixed(raw, costs)
  {
    if k == 1.0 {
      assert ScaleCosts(costs, k) == costs;
    } else if Mixed(raw, costs) {
      MixedScaleChanges(raw, costs, k);
    } else {
      UnmixedScaleKeeps(raw, costs, k);
    }
  }

  lemma SharesOfTwo(x: real, y: real)
    requires x + y != 0.0
    ensures Shares([x, y]) == [x / (x + y), y / (x + y)]
  {
    assert Sum([y]) == y && [x, y][1..] == [y];
    assert Sum([x, y]) == x + y;
  }

  /** For instance, doubling the one cost that is given moves two equal shares to a third and two thirds. */
  lemma CostScaleInstance()
    ensures ApplyCost([1.0, 1.0], [Some(1.0), None]) == [0.5, 0.5]
    ensures ApplyCost([1.0, 1.0], ScaleCosts([Some(1.0), None], 2.0)) == [1.0 / 3.0, 2.0 / 3.0]
  {
    SharesOfTwo(1.0, 1.0);
    SharesOfTwo(0.5, 1.0);
    assert ScaleCosts([Some(1.0), None], 2.0) == [Some(2.0), None];
    assert Costed([1.0, 1.0], [Some(1.0), None]) == [1.0, 1.0];
    assert Costed([1.0, 1.0], [Some(2.0), None]) == [0.5, 1.0];
  }

  lemma FallingMonotone(x: real, y: real, ceiling: real)
    requires ceiling > 0.0 && x <= y
    ensures 0.0 <= Falling(y, ceiling) <= Falling(x, ceiling)
  {
    var p := Quotient(Min(x, ceiling), ceiling);
    var q := Quotient(Min(y, ceiling), ceiling);
    Cancel(p, q, ceiling, Min(x, ceiling), Min(y, ceiling));
  }

  lemma QualityMonotone(m: Metrics, latency: real)
    requires m.latency.Some? && m.latency.value <= latency
    ensures Quality(m.(latency := Some(latency))) <= Quality(m)
  {
    FallingMonotone(m.latency.value, latency, 500.0);
  }

  lemma ScoreNonNegative(m: Metrics)
    requires m.signal.Some? ==> m.signal.value >= 0.0
    ensures Score(m) >= 0.0
  {
  }

  ghost predicate SignalsNonNegative(ms: seq<Metrics>) {
    forall i :: 0 <= i < |ms| ==> (ms[i].signal.Some? ==> ms[i].signal.value >= 0.0)
  }

  lemma ScoresNonNegative(ms: seq<Metrics>)
    requires SignalsNonNegative(ms)
    ensures NonNegative(Scores(ms))
  {
    forall i | 0 <= i < |ms| ensures Scores(ms)[i] >= 0.0 { ScoreNonNegative(ms[i]); }
  }

  /** The heuristic's shares are a distribution. */
  lemma HeuristicIsDistribution(ms: seq<Metrics>)
    requires ms != [] && SignalsNonNegative(ms)
    ensures NonNegative(Heuristic(ms)) && Sum(Heuristic(ms)) == 1.0
  {
    ScoresNonNegative(ms);
    CostedNonNegative(Scores(ms), Costs(ms));
    SharesAreDistribution(Costed(Scores(ms), Costs(ms)));
  }

  /** Raising the latency of one online interface never raises its share nor lowers another's. */
  lemma LatencyMonotone(ms: seq<Metrics>, i: int, latency: real)
    requires SignalsNonNegative(ms) && 0 <= i < |ms| && Online(ms[i]) && ms[i].latency.value <= latency
    ensures var before, after := Heuristic(ms), Heuristic(ms[i := ms[i].(latency := Some(latency))]);
            && |before| == |after| == |ms|
            && after[i] <= before[i]
            && forall j :: 0 <= j < |ms| && j != i ==> before[j] <= after[j]
  {
    var ms' := ms[i := ms[i].(latency := Some(latency))];
    ScoresNonNegative(ms);
    ScoresNonNegative(ms');
    LatencyLowersScore(ms[i], latency);
    assert Costs(ms') == Costs(ms);
    RawMonotone(Scores(ms), Scores(ms'), Costs(ms), i);
  }

  lemma LatencyLowersScore(m: Metrics, latency: real)
    requires Online(m) && m.latency.value <= latency
    ensures Score(m.(latency := Some(latency))) <= Score(m)
  {
    QualityMonotone(m, latency);
  }

  lemma RawMonotone(raw: seq<real>, raw': seq<real>, costs: seq<Option<real>>, i: int)
    requires |raw| == |raw'| == |costs| && NonNegative(raw) && NonNegative(raw')
    requires DiffersOnlyAt(raw, raw', i) && raw'[i] <= raw[i]
    ensures ApplyCost(raw', costs)[i] <= ApplyCost(raw, costs)[i]
    ensures forall j :: 0 <= j < |raw| && j != i ==> ApplyCost(raw, costs)[j] <= ApplyCost(raw', costs)[j]
  {
    CostedNonNegative(raw, costs);
    CostedNonNegative(raw', costs);
    FactorPositive(costs[i]);
    LowerProduct(raw'[i], raw[i], CostFactor(costs[i]));
    SharesMonotone(Costed(raw, costs), Costed(raw', costs), i);
  }

  lemma LowerProduct(x: real, y: real, f: real)
    requires x <= y && f >= 0.0
    ensures x * f <= y * f && f * x <= f * y
  {
    var z := Product(y - x, f);
  }

  /** An offline interface gets nothing as soon as some interface scores. */
  lemma OfflineGetsNothing(ms: seq<Metrics>, i: int, j: int)
    requires SignalsNonNegative(ms) && 0 <= i < |ms| && 0 <= j < |ms|
    requires !Online(ms[i]) && Score(ms[j]) > 0.0
    ensures |Heuristic(ms)| == |ms| && Heuristic(ms)[i] == 0.0 && Heuristic(ms)[j] > 0.0
  {
    var s := Costed(Scores(ms), Costs(ms));
    ScoresNonNegative(ms);
    CostedNonNegative(Scores(ms), Costs(ms));
    SumBounds(s);
    var zero := Quotient(s[i], Sum(s));
    var some := Quotient(s[j], Sum(s));
  }

  // ----- The whole decision: heuristic shares, smoothed, as integer weights

  function Named(names: seq<string>, shares: seq<real>): (r: seq<Smoothing.Share>)
    requires |names| == |shares|
    ensures |r| == |names| && forall i :: 0 <= i < |names| ==> r[i] == Smoothing.Share(names[i], shares[i])
  {
    seq(|names|, i requires 0 <= i < |names| => Smoothing.Share(names[i], shares[i]))
  }

  lemma {:induction false} TotalOfNamed(names: seq<string>, shares: seq<real>)
    requires |names| == |shares|
    ensures Smoothing.Total(Named(names, shares)) == Sum(shares)
  {
    if names != [] {
      TotalOfNamed(names[1..], shares[1..]);
      assert Named(names, shares)[1..] == Named(names[1..], shares[1..]);
    }
  }

  /**
   The published weights: each in 1..255, totalling about 255, and exactly 1 - the least weight -
   for an interface that is offline while another one scores, whatever was smoothed before.
   */
  lemma PublishedWeights(names: seq<string>, ms: seq<Metrics>, alpha: real, prev: seq<Smoothing.Share>)
    requires ms != [] && |names| == |ms| && SignalsNonNegative(ms)
    requires 0.0 < alpha <= 1.0 && Smoothing.NonNegative(prev)
    ensures |Heuristic(ms)| == |ms|
    ensures var r := Smoothing.Smooth(alpha, prev, Named(names, Heuristic(ms)));
            && |r| == |ms|
            && (forall i :: 0 <= i < |ms| ==> r[i].iface == names[i] && 1 <= Smoothing.Weight(r[i].p) <= 255)
            && 255.0 - |ms| as real / 2.0 <= Smoothing.TotalWeight(r) as real <= 255.0 + |ms| as real
            && forall i, j :: 0 <= i < |ms| && 0 <= j < |ms| && !Online(ms[i]) && Score(ms[j]) > 0.0 ==>
                 Smoothing.Weight(r[i].p) == 1
  {
    HeuristicIsDistribution(ms);
    var d := Named(names, Heuristic(ms));
    var r := Smoothing.Smooth(alpha, prev, d);
    TotalOfNamed(names, Heuristic(ms));
    Smoothing.TotalSign(d);
    Smoothing.SmoothInvariant(alpha, prev, d);
    Smoothing.WeightsOfDistribution(r);
    forall i, j | 0 <= i < |ms| && 0 <= j < |ms| && !Online(ms[i]) && Score(ms[j]) > 0.0
      ensures Smoothing.Weight(r[i].p) == 1
    {
      OfflineGetsNothing(ms, i, j);
      Smoothing.WeightBounds(r[i].p);
    }
  }
}
