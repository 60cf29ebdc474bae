/**
 Forecasts and trend labels as statements about the recorded history itself:
 two lists of times and values, either of which may lack an entry.
 */
module Histories {
  import opened Options
  import opened Products
  import opened Rounding
  import opened Regression

  /** The i-th entry has both a time and a value. */
  predicate Present(ts: seq<Option<real>>, vs: seq<Option<real>>, i: int) {
    0 <= i < |ts| && i < |vs| && ts[i].Some? && vs[i].Some?
  }

  // ----- Which samples count

  /** The indices of all entries that are present, in ascending order. */
  ghost predicate Selects(ts: seq<Option<real>>, vs: seq<Option<real>>, idx: seq<int>) {
    && (forall k :: 0 <= k < |idx| ==> Present(ts, vs, idx[k]))
    && Ascending(idx)
    && (forall i :: Present(ts, vs, i) ==> i in idx)
  }

  ghost predicate Ascending(idx: seq<int>) {
    forall j, k :: 0 <= j < k < |idx| ==> idx[j] < idx[k]
  }

  /** The present entries from an index on. */
  function From(ts: seq<Option<real>>, vs: seq<Option<real>>, i: nat): seq<int>
    decreases |ts| - i
  {
    if i >= |ts| || i >= |vs| then []
    else (if Present(ts, vs, i) then [i] else []) + From(ts, vs, i + 1)
  }

  lemma {:induction false} FromMembers(ts: seq<Option<real>>, vs: seq<Option<real>>, i: nat)
    ensures forall x :: x in From(ts, vs, i) <==> i <= x && Present(ts, vs, x)
    ensures Ascending(From(ts, vs, i))
    decreases |ts| - i
  {
    if i < |ts| && i < |vs| {
      FromMembers(ts, vs, i + 1);
      var rest := From(ts, vs, i + 1);
      assert forall k :: 0 <= k < |rest| ==> rest[k] in rest;
    }
  }

  lemma {:induction false} ValidFrom(ts: seq<Option<real>>, vs: seq<Option<real>>, i: nat)
    requires i <= |ts| && i <= |vs|
    ensures var idx := From(ts, vs, i);
            && (forall k :: 0 <= k < |idx| ==> Present(ts, vs, idx[k]))
            && |Valid(ts[i..], vs[i..])| == |idx|
            && forall k :: 0 <= k < |idx| ==> Valid(ts[i..], vs[i..])[k] == Sample(ts[idx[k]].value, vs[idx[k]].value)
    decreases |ts| - i
  {
    if i < |ts| && i < |vs| {
      ValidFrom(ts, vs, i + 1);
      assert ts[i..][1..] == ts[i + 1..] && vs[i..][1..] == vs[i + 1..];
    }
  }

  lemma {:induction false} FirstIsLeast(a: seq<int>, b: seq<int>)
    requires a != [] && Ascending(a) && forall x :: x in b ==> x in a
    ensures forall x :: x in b ==> a[0] <= x
  {
  }

  /** An ascending sequence is determined by its members. */
  lemma {:induction false} AscendingUnique(a: seq<int>, b: seq<int>)
    requires Ascending(a) && Ascending(b) && forall x :: x in a <==> x in b
    ensures a == b
  {
    if a == [] {
      assert forall k :: 0 <= k < |b| ==> b[k] in b;
    } else {
      assert a[0] in a && a[0] in b && b[0] in b;
      FirstIsLeast(a, b);
      FirstIsLeast(b, a);
      assert a[0] == b[0];
      forall x ensures x in a[1..] <==> x in b[1..] {
        InTail(a, x);
        InTail(b, x);
      }
      AscendingUnique(a[1..], b[1..]);
    }
  }

  lemma {:induction false} InTail(a: seq<int>, x: int)
    requires a != [] && Ascending(a)
    ensures x in a[1..] <==> x in a && x != a[0]
  {
    if x in a && x != a[0] {
      var k :| 0 <= k < |a| && a[k] == x;
      assert a[1..][k - 1] == x;
    }
  }

  /** The samples of a history are its present entries, all of them, in order. */
  lemma {:induction false} ValidSelects(ts: seq<Option<real>>, vs: seq<Option<real>>, idx: seq<int>)
    requires Selects(ts, vs, idx)
    ensures |Valid(ts, vs)| == |idx|
    ensures forall k :: 0 <= k < |idx| ==> Valid(ts, vs)[k] == Sample(ts[idx[k]].value, vs[idx[k]].value)
  {
    FromMembers(ts, vs, 0);
    assert forall k :: 0 <= k < |idx| ==> idx[k] in idx;
    AscendingUnique(idx, From(ts, vs, 0));
    ValidFrom(ts, vs, 0);
    assert ts[0..] == ts && vs[0..] == vs;
  }

  /** There is such a selection. */
  lemma {:induction false} Selection(ts: seq<Option<real>>, vs: seq<Option<real>>) returns (idx: seq<int>)
    ensures Selects(ts, vs, idx)
  {
    idx := From(ts, vs, 0);
    FromMembers(ts, vs, 0);
    assert forall k :: 0 <= k < |idx| ==> idx[k] in idx;
  }

  /** Every present entry is a sample and every sample a present entry. */
  lemma {:induction false} SampleOf(ts: seq<Option<real>>, vs: seq<Option<real>>, i: int) returns (k: nat)
    requires Present(ts, vs, i)
    ensures k < |Valid(ts, vs)| && Valid(ts, vs)[k] == Sample(ts[i].value, vs[i].value)
  {
    var idx := Selection(ts, vs);
    ValidSelects(ts, vs, idx);
    k :| 0 <= k < |idx| && idx[k] == i;
  }

  lemma {:induction false} EntryOf(ts: seq<Option<real>>, vs: seq<Option<real>>, k: nat) returns (i: int)
    requires k < |Valid(ts, vs)|
    ensures Present(ts, vs, i) && Valid(ts, vs)[k] == Sample(ts[i].value, vs[i].value)
  {
    var idx := Selection(ts, vs);
    ValidSelects(ts, vs, idx);
    i := idx[k];
  }

  // ----- Rates of the recorded history

  /** From one sample to a later one the value climbs at a rate of at least, or at most, `rate`. */
  predicate Rises(t: real, v: real, t': real, v': real, rate: real) {
    v' - v >= rate * (t' - t)
  }

  predicate Falls(t: real, v: real, t': real, v': real, rate: real) {
    v' - v <= rate * (t' - t)
  }

  /** Between any two recorded times the history climbs at a rate of at least lo. */
  ghost predicate ClimbsBy(ts: seq<Option<real>>, vs: seq<Option<real>>, lo: real) {
    forall i, j :: Present(ts, vs, i) && Present(ts, vs, j) && ts[i].value < ts[j].value ==>
      Rises(ts[i].value, vs[i].value, ts[j].value, vs[j].value, lo)
  }

  ghost predicate ClimbsNoFaster(ts: seq<Option<real>>, vs: seq<Option<real>>, hi: real) {
    forall i, j :: Present(ts, vs, i) && Present(ts, vs, j) && ts[i].value < ts[j].value ==>
      Falls(ts[i].value, vs[i].value, ts[j].value, vs[j].value, hi)
  }

  /** Two recorded times differ. */
  ghost predicate TimesDiffer(ts: seq<Option<real>>, vs: seq<Option<real>>) {
    exists i, j :: Present(ts, vs, i) && Present(ts, vs, j) && ts[i].value != ts[j].value
  }

  lemma {:induction false} SamplesRise(ts: seq<Option<real>>, vs: seq<Option<real>>, rate: real, k: nat, l: nat)
    requires var ss := Valid(ts, vs); k < |ss| && l < |ss| && ss[k].t < ss[l].t
    ensures var a, b := Valid(ts, vs)[k], Valid(ts, vs)[l];
            && (ClimbsBy(ts, vs, rate) ==> Rises(a.t, a.v, b.t, b.v, rate))
            && (ClimbsNoFaster(ts, vs, rate) ==> Falls(a.t, a.v, b.t, b.v, rate))
  {
    var i := EntryOf(ts, vs, k);
    var j := EntryOf(ts, vs, l);
  }

  lemma {:induction false} RatesOfSamples(ts: seq<Option<real>>, vs: seq<Option<real>>, rate: real)
    ensures ClimbsBy(ts, vs, rate) ==> RatesAtLeast(Valid(ts, vs), rate)
    ensures ClimbsNoFaster(ts, vs, rate) ==> RatesAtMost(Valid(ts, vs), rate)
  {
    var ss := Valid(ts, vs);
    forall k, l | 0 <= k < |ss| && 0 <= l < |ss| && ss[k].t < ss[l].t
      ensures ClimbsBy(ts, vs, rate) ==> Rises(ss[k].t, ss[k].v, ss[l].t, ss[l].v, rate)
      ensures ClimbsNoFaster(ts, vs, rate) ==> Falls(ss[k].t, ss[k].v, ss[l].t, ss[l].v, rate)
    {
      SamplesRise(ts, vs, rate, k, l);
    }
    RatesFromRises(ss, rate);
  }

  lemma {:induction false} RatesFromRises(ss: seq<Sample>, rate: real)
    ensures (forall k, l :: 0 <= k < |ss| && 0 <= l < |ss| && ss[k].t < ss[l].t ==> Rises(ss[k].t, ss[k].v, ss[l].t, ss[l].v, rate))
            ==> RatesAtLeast(ss, rate)
    ensures (forall k, l :: 0 <= k < |ss| && 0 <= l < |ss| && ss[k].t < ss[l].t ==> Falls(ss[k].t, ss[k].v, ss[l].t, ss[l].v, rate))
            ==> RatesAtMost(ss, rate)
  {
  }

  lemma {:induction false} SpansIff(ts: seq<Option<real>>, vs: seq<Option<real>>)
    ensures TimesDiffer(ts, vs) <==> Spans(Valid(ts, vs))
  {
    var ss := Valid(ts, vs);
    if TimesDiffer(ts, vs) {
      var i, j :| Present(ts, vs, i) && Present(ts, vs, j) && ts[i].value != ts[j].value;
      var k := SampleOf(ts, vs, i);
      var l := SampleOf(ts, vs, j);
      assert ss[k].t != ss[l].t;
    }
    if Spans(ss) {
      var k, l :| 0 <= k < |ss| && 0 <= l < |ss| && ss[k].t != ss[l].t;
      var i := EntryOf(ts, vs, k);
      var j := EntryOf(ts, vs, l);
      assert Present(ts, vs, i) && Present(ts, vs, j) && ts[i].value != ts[j].value;
    }
  }

  // ----- Forecasts

  lemma {:induction false} TwoPresent(ts: seq<Option<real>>, vs: seq<Option<real>>, idx: seq<int>)
    requires Selects(ts, vs, idx)
    ensures |idx| >= 2 ==> exists i, j :: Present(ts, vs, i) && Present(ts, vs, j) && i != j
  {
    if |idx| >= 2 { assert Present(ts, vs, idx[0]) && Present(ts, vs, idx[1]) && idx[0] < idx[1]; }
  }

  /** There is no forecast exactly when no entry is present, and no slope when at most one is. */
  lemma {:induction false} NoForecastIff(ts: seq<Option<real>>, vs: seq<Option<real>>, target: real, weight: real -> real)
    requires Positive(weight)
    ensures PredictAt(ts, vs, target, weight).None? <==> forall i :: !Present(ts, vs, i)
    ensures WeightedSlope(ts, vs, weight).None? <==> forall i, j :: Present(ts, vs, i) && Present(ts, vs, j) ==> i == j
  {
    var idx := Selection(ts, vs);
    ValidSelects(ts, vs, idx);
    if idx != [] { assert Present(ts, vs, idx[0]); }
    if |idx| >= 2 { assert Present(ts, vs, idx[0]) && Present(ts, vs, idx[1]) && idx[0] < idx[1]; }
  }

  /** The forecast of a single present entry is its value. */
  lemma {:induction false} SingleForecast(ts: seq<Option<real>>, vs: seq<Option<real>>, i: int, target: real, weight: real -> real)
    requires Positive(weight) && Present(ts, vs, i) && forall j :: Present(ts, vs, j) ==> j == i
    ensures PredictAt(ts, vs, target, weight) == Some(vs[i].value)
  {
    var idx := Selection(ts, vs);
    ValidSelects(ts, vs, idx);
    TwoPresent(ts, vs, idx);
    assert idx != [] && Present(ts, vs, idx[0]);
  }

  /** Every recorded entry lies on the line c + m t. */
  ghost predicate LiesOn(ts: seq<Option<real>>, vs: seq<Option<real>>, m: real, c: real) {
    forall i :: Present(ts, vs, i) ==> vs[i].value == c + m * ts[i].value
  }

  lemma {:induction false} SamplesOnLine(ts: seq<Option<real>>, vs: seq<Option<real>>, m: real, c: real)
    requires LiesOn(ts, vs, m, c)
    ensures OnLine(Valid(ts, vs), m, c)
  {
    var ss := Valid(ts, vs);
    forall k | 0 <= k < |ss| ensures ss[k].v == c + m * ss[k].t { var i := EntryOf(ts, vs, k); }
  }

  lemma {:induction false} ForecastIs(ts: seq<Option<real>>, vs: seq<Option<real>>, target: real, weight: real -> real)
    requires Positive(weight) && |Valid(ts, vs)| >= 2
    ensures var f := Wls(Weigh(Valid(ts, vs), Latest(Valid(ts, vs)), weight));
            PredictAt(ts, vs, target, weight) == Some(Extend(f, target)) && WeightedSlope(ts, vs, weight) == Some(f.slope)
  {
  }

  lemma {:induction false} SlopeOnLine(ss: seq<Sample>, now: real, weight: real -> real, m: real, c: real)
    requires Positive(weight) && Spans(ss) && OnLine(ss, m, c)
    ensures Wls(Weigh(ss, now, weight)).slope == m
  {
    LineRates(ss, m, c);
    FitOfHistory(ss, now, weight, m);
  }

  /** A history that lies on a line, gaps or not, is extrapolated along that line, exactly. */
  lemma {:induction false} ExactExtrapolation(ts: seq<Option<real>>, vs: seq<Option<real>>, target: real, weight: real -> real, m: real, c: real)
    requires Positive(weight) && TimesDiffer(ts, vs) && LiesOn(ts, vs, m, c)
    ensures PredictAt(ts, vs, target, weight) == Some(c + m * target)
    ensures WeightedSlope(ts, vs, weight) == Some(m)
  {
    var ss := Valid(ts, vs);
    SpansIff(ts, vs);
    SamplesOnLine(ts, vs, m, c);
    FitOnLine(ss, Latest(ss), weight, m, c, target);
    SlopeOnLine(ss, Latest(ss), weight, m, c);
    ForecastIs(ts, vs, target, weight);
  }

  // ----- The forecast minimises the error over the recorded entries

  function SquareGap(w: real, t: real, v: real, m: real, c: real): real {
    var gap := v - (c + m * t);
    w * (gap * gap)
  }

  /** Weighted squared error of the line c + m t over the entries that are present; `now` dates the weights. */
  function HistoryError(ts: seq<Option<real>>, vs: seq<Option<real>>, weight: real -> real, now: real, m: real, c: real): real {
    if ts == [] || vs == [] then 0.0
    else
      (if ts[0].Some? && vs[0].Some? then SquareGap(weight(now - ts[0].value), ts[0].value, vs[0].value, m, c) else 0.0)
      + HistoryError(ts[1..], vs[1..], weight, now, m, c)
  }

  lemma {:induction false} GapOfLine(p: Point, m: real, a: real, b: real, c: real)
    requires b == c + m * a
    ensures var r := Residual(p, m, a, b); p.w * (r * r) == SquareGap(p.w, p.t, p.v, m, c)
  {
    assert m * (p.t - a) == m * p.t - m * a;
  }

  lemma {:induction false} ErrorHead(head: Point, rest: seq<Point>, m: real, a: real, b: real, c: real)
    requires b == c + m * a
    ensures SquaredError([head] + rest, m, a, b) == SquareGap(head.w, head.t, head.v, m, c) + SquaredError(rest, m, a, b)
  {
    GapOfLine(head, m, a, b, c);
    assert ([head] + rest)[1..] == rest;
  }

  lemma {:induction false} ErrorOfHistory(ts: seq<Option<real>>, vs: seq<Option<real>>, weight: real -> real, now: real,
                                          m: real, a: real, b: real, c: real)
    requires b == c + m * a
    ensures SquaredError(Weigh(Valid(ts, vs), now, weight), m, a, b) == HistoryError(ts, vs, weight, now, m, c)
  {
    if ts != [] && vs != [] {
      var rest := Valid(ts[1..], vs[1..]);
      ErrorOfHistory(ts[1..], vs[1..], weight, now, m, a, b, c);
      if ts[0].Some? && vs[0].Some? {
        var ps := Weigh(Valid(ts, vs), now, weight);
        var head := Point(weight(now - ts[0].value), ts[0].value, vs[0].value);
        assert ps == [head] + Weigh(rest, now, weight);
        ErrorHead(head, Weigh(rest, now, weight), m, a, b, c);
      }
    }
  }

  lemma {:induction false} LatestIsLast(ss: seq<Sample>)
    requires ss != []
    ensures exists k :: 0 <= k < |ss| && ss[k].t == Latest(ss)
    ensures forall k :: 0 <= k < |ss| ==> ss[k].t <= Latest(ss)
  {
    if |ss| > 1 {
      LatestIsLast(ss[1..]);
      var k :| 0 <= k < |ss[1..]| && ss[1..][k].t == Latest(ss[1..]);
      assert ss[k + 1].t == Latest(ss[1..]);
      assert ss[0].t == Latest(ss) || ss[k + 1].t == Latest(ss);
      assert forall j :: 0 < j < |ss| ==> ss[j] == ss[1..][j - 1];
    } else {
      assert ss[0].t == Latest(ss);
    }
  }

  /** `now` is the latest recorded time. */
  ghost predicate LatestTime(ts: seq<Option<real>>, vs: seq<Option<real>>, now: real) {
    && (exists i :: Present(ts, vs, i) && ts[i].value == now)
    && (forall i :: Present(ts, vs, i) ==> ts[i].value <= now)
  }

  lemma {:induction false} LatestOfHistory(ts: seq<Option<real>>, vs: seq<Option<real>>)
    requires Valid(ts, vs) != []
    ensures LatestTime(ts, vs, Latest(Valid(ts, vs)))
  {
    var ss := Valid(ts, vs);
    LatestIsLast(ss);
    var k :| 0 <= k < |ss| && ss[k].t == Latest(ss);
    var i := EntryOf(ts, vs, k);
    forall j | Present(ts, vs, j) ensures ts[j].value <= Latest(ss) { var l := SampleOf(ts, vs, j); }
  }

  lemma {:induction false} LineThrough(m: real, a: real, b: real, c: real, t: real)
    ensures m * (0.0 - a) + b == c ==> m * (t - a) + b == c + m * t && b == c + m * a
  {
    assert m * (t - a) == m * t - m * a;
    assert m * (0.0 - a) == 0.0 - m * a;
  }

  lemma {:induction false} FitIsBest(ps: seq<Point>, f: Fit, m: real, c: real)
    requires ps != [] && Weighted(ps) && f == Wls(ps)
    ensures SquaredError(ps, f.slope, f.tMean, f.vMean) <= SquaredError(ps, m, 0.0, c)
  {
    LeastSquares(ps, m, 0.0, c);
  }

  lemma {:induction false} ErrorFromZero(ts: seq<Option<real>>, vs: seq<Option<real>>, weight: real -> real, now: real, m: real, c: real)
    ensures SquaredError(Weigh(Valid(ts, vs), now, weight), m, 0.0, c) == HistoryError(ts, vs, weight, now, m, c)
  {
    assert m * 0.0 == 0.0;
    ErrorOfHistory(ts, vs, weight, now, m, 0.0, c, c);
  }

  /** The error of a line on weighted points is that on the history they come from. */
  ghost predicate SameErrors(ps: seq<Point>, ts: seq<Option<real>>, vs: seq<Option<real>>, weight: real -> real, now: real,
                             m: real, a: real, b: real, c: real) {
    SquaredError(ps, m, a, b) == HistoryError(ts, vs, weight, now, m, c)
  }

  lemma {:induction false} SmallerError(ps: seq<Point>, ts: seq<Option<real>>, vs: seq<Option<real>>, weight: real -> real,
                                        now: real, f: Fit, c: real, m': real, c': real)
    requires SameErrors(ps, ts, vs, weight, now, f.slope, f.tMean, f.vMean, c)
    requires SameErrors(ps, ts, vs, weight, now, m', 0.0, c', c')
    requires SquaredError(ps, f.slope, f.tMean, f.vMean) <= SquaredError(ps, m', 0.0, c')
    ensures HistoryError(ts, vs, weight, now, f.slope, c) <= HistoryError(ts, vs, weight, now, m', c')
  {
  }

  lemma {:induction false} FitMinimises(ts: seq<Option<real>>, vs: seq<Option<real>>, weight: real -> real, now: real,
                                        f: Fit, c: real, m': real, c': real)
    requires Positive(weight) && Valid(ts, vs) != []
    requires f == Wls(Weigh(Valid(ts, vs), now, weight)) && f.vMean == c + f.slope * f.tMean
    ensures HistoryError(ts, vs, weight, now, f.slope, c) <= HistoryError(ts, vs, weight, now, m', c')
  {
    var ps := Weigh(Valid(ts, vs), now, weight);
    assert SquaredError(ps, f.slope, f.tMean, f.vMean) <= SquaredError(ps, m', 0.0, c') by { FitIsBest(ps, f, m', c'); }
    assert SameErrors(ps, ts, vs, weight, now, f.slope, f.tMean, f.vMean, c) by {
      ErrorOfHistory(ts, vs, weight, now, f.slope, f.tMean, f.vMean, c);
    }
    assert SameErrors(ps, ts, vs, weight, now, m', 0.0, c', c') by { ErrorFromZero(ts, vs, weight, now, m', c'); }
    SmallerError(ps, ts, vs, weight, now, f, c, m', c');
  }

  /**
   From two present entries on, with the slope m and the forecast c for time 0, forecasts lie on the
   line c + m t, and no line has a smaller weighted squared error over the recorded entries, the
   weights dated by the latest recorded time.
   */
  lemma {:induction false} ForecastMinimises(ts: seq<Option<real>>, vs: seq<Option<real>>, target: real, weight: real -> real,
                                             now: real, m: real, c: real, m': real, c': real)
    requires Positive(weight) && LatestTime(ts, vs, now)
    requires WeightedSlope(ts, vs, weight) == Some(m) && PredictAt(ts, vs, 0.0, weight) == Some(c)
    ensures PredictAt(ts, vs, target, weight) == Some(c + m * target)
    ensures HistoryError(ts, vs, weight, now, m, c) <= HistoryError(ts, vs, weight, now, m', c')
  {
    LatestOfHistory(ts, vs);
    assert now == Latest(Valid(ts, vs));
    var f := ForecastAsLine(ts, vs, target, weight, m, c);
    FitMinimises(ts, vs, weight, now, f, c, m', c');
  }

  lemma {:induction false} ForecastAsLine(ts: seq<Option<real>>, vs: seq<Option<real>>, target: real, weight: real -> real,
                                          m: real, c: real) returns (f: Fit)
    requires Positive(weight) && WeightedSlope(ts, vs, weight) == Some(m) && PredictAt(ts, vs, 0.0, weight) == Some(c)
    ensures f == Wls(Weigh(Valid(ts, vs), Latest(Valid(ts, vs)), weight))
    ensures f.slope == m && f.vMean == c + m * f.tMean && PredictAt(ts, vs, target, weight) == Some(c + m * target)
  {
    f := Wls(Weigh(Valid(ts, vs), Latest(Valid(ts, vs)), weight));
    ForecastIs(ts, vs, 0.0, weight);
    ForecastIs(ts, vs, target, weight);
    LineThrough(f.slope, f.tMean, f.vMean, c, target);
    assert Extend(f, 0.0) == c && f.slope == m;
    assert Extend(f, target) == c + m * target;
  }

  // ----- Coinciding times

  /** Sum and number of the recorded values. */
  function TotalOf(ts: seq<Option<real>>, vs: seq<Option<real>>): real {
    if ts == [] || vs == [] then 0.0
    else (if ts[0].Some? && vs[0].Some? then vs[0].value else 0.0) + TotalOf(ts[1..], vs[1..])
  }

  function CountOf(ts: seq<Option<real>>, vs: seq<Option<real>>): nat {
    if ts == [] || vs == [] then 0
    else (if ts[0].Some? && vs[0].Some? then 1 else 0) + CountOf(ts[1..], vs[1..])
  }

  function SumV(ss: seq<Sample>): real {
    if ss == [] then 0.0 else ss[0].v + SumV(ss[1..])
  }

  function SumOnes(ss: seq<Sample>): real {
    if ss == [] then 0.0 else 1.0 + SumOnes(ss[1..])
  }

  lemma {:induction false} SumsAtOneTime(ss: seq<Sample>, weight: real -> real, now: real)
    requires forall k :: 0 <= k < |ss| ==> ss[k].t == now
    ensures SumW(Weigh(ss, now, weight)) == weight(0.0) * SumOnes(ss)
    ensures SumWV(Weigh(ss, now, weight)) == weight(0.0) * SumV(ss)
  {
    if ss != [] {
      var w, rest := weight(0.0), ss[1..];
      SumsAtOneTime(rest, weight, now);
      assert Weigh(ss, now, weight)[1..] == Weigh(rest, now, weight);
      assert now - ss[0].t == 0.0;
      Distribute(w, 1.0, SumOnes(rest));
      Distribute(w, ss[0].v, SumV(rest));
    }
  }

  lemma {:induction false} SumsOfHistory(ts: seq<Option<real>>, vs: seq<Option<real>>)
    ensures |Valid(ts, vs)| == CountOf(ts, vs) && SumV(Valid(ts, vs)) == TotalOf(ts, vs)
    ensures SumOnes(Valid(ts, vs)) == CountOf(ts, vs) as real
  {
    if ts != [] && vs != [] {
      SumsOfHistory(ts[1..], vs[1..]);
      if ts[0].Some? && vs[0].Some? { assert Valid(ts, vs)[1..] == Valid(ts[1..], vs[1..]); }
    }
  }

  lemma {:induction false} MeanCancels(mean: real, w: real, n: real, total: real, wn: real, wTotal: real)
    requires w > 0.0 && wn == w * n && wTotal == w * total && mean * wn == wTotal
    ensures mean * n == total
  {
    assert mean * n * w == mean * wn;
    Cancel(mean * n, total, w, wTotal, wTotal);
  }

  lemma {:induction false} MeanTimesWeight(ps: seq<Point>)
    requires ps != [] && Weighted(ps)
    ensures Wls(ps).vMean * SumW(ps) == SumWV(ps)
  {
    TotalWeightPositive(ps);
    Undivide(SumWV(ps), SumW(ps));
  }

  lemma {:induction false} MeanAtOneTime(ss: seq<Sample>, weight: real -> real, now: real)
    requires Positive(weight) && ss != [] && forall k :: 0 <= k < |ss| ==> ss[k].t == now
    ensures Wls(Weigh(ss, now, weight)).vMean * SumOnes(ss) == SumV(ss)
  {
    var ps := Weigh(ss, now, weight);
    SumsAtOneTime(ss, weight, now);
    MeanTimesWeight(ps);
    MeanCancels(Wls(ps).vMean, weight(0.0), SumOnes(ss), SumV(ss), SumW(ps), SumWV(ps));
  }

  /** When all recorded times coincide the slope is 0 and the forecast the average of the recorded values. */
  lemma {:induction false} CoincidingForecast(ts: seq<Option<real>>, vs: seq<Option<real>>, target: real, weight: real -> real)
    returns (average: real)
    requires Positive(weight) && CountOf(ts, vs) >= 2 && !TimesDiffer(ts, vs)
    ensures PredictAt(ts, vs, target, weight) == Some(average) && average * CountOf(ts, vs) as real == TotalOf(ts, vs)
    ensures WeightedSlope(ts, vs, weight) == Some(0.0)
  {
    var ss := Valid(ts, vs);
    SpansIff(ts, vs);
    SumsOfHistory(ts, vs);
    SameTimes(ss);
    var f := Wls(Weigh(ss, Latest(ss), weight));
    MeanAtOneTime(ss, weight, Latest(ss));
    FitOfHistory(ss, Latest(ss), weight, 0.0);
    ForecastIs(ts, vs, target, weight);
    FlatLine(f, target);
    average := f.vMean;
  }

  lemma {:induction false} SameTimes(ss: seq<Sample>)
    requires ss != [] && !Spans(ss)
    ensures forall k :: 0 <= k < |ss| ==> ss[k].t == Latest(ss)
  {
    LatestIsLast(ss);
    var k :| 0 <= k < |ss| && ss[k].t == Latest(ss);
    assert forall j :: 0 <= j < |ss| ==> ss[j].t == ss[k].t;
  }

  lemma {:induction false} FlatLine(f: Fit, target: real)
    requires f.slope == 0.0
    ensures Extend(f, target) == f.vMean
  {
    assert 0.0 * (target - f.tMean) == 0.0;
  }

  // ----- Trend labels

  predicate IsTenThousandths(y: real, n: int) {
    y == n as real / 10000.0
  }

  /** Rounding to four decimals moves a number by at most half of the last one. */
  lemma {:induction false} Round4Near(x: real)
    ensures -0.00005 <= Round4(x) - x <= 0.00005
    ensures exists n :: IsTenThousandths(Round4(x), n)
  {
    RoundNearest(x * 10000.0);
    assert IsTenThousandths(Round4(x), Round(x * 10000.0));
  }

  lemma {:induction false} FewAreStable(ts: seq<Option<real>>, vs: seq<Option<real>>, weight: real -> real, stable: real)
    requires Positive(weight) && stable > 0.0
    ensures WeightedSlope(ts, vs, weight).None? ==> TrendOf(ts, vs, weight, stable) == Stable
    ensures WeightedSlope(ts, vs, weight).Some? ==>
              TrendOf(ts, vs, weight, stable) == Label(Round4(WeightedSlope(ts, vs, weight).value * 60.0), stable)
  {
  }

  lemma {:induction false} SlopeAtLeast(ts: seq<Option<real>>, vs: seq<Option<real>>, weight: real -> real, rate: real)
    requires Positive(weight) && TimesDiffer(ts, vs)
    ensures WeightedSlope(ts, vs, weight).Some?
    ensures ClimbsBy(ts, vs, rate) ==> WeightedSlope(ts, vs, weight).value >= rate
    ensures ClimbsNoFaster(ts, vs, rate) ==> WeightedSlope(ts, vs, weight).value <= rate
  {
    var ss := Valid(ts, vs);
    RatesOfSamples(ts, vs, rate);
    SpansIff(ts, vs);
    FitOfHistory(ss, Latest(ss), weight, rate);
  }

  lemma {:induction false} TrendRises(ts: seq<Option<real>>, vs: seq<Option<real>>, weight: real -> real, stable: real, lo: real)
    requires Positive(weight) && stable > 0.0 && TimesDiffer(ts, vs) && ClimbsBy(ts, vs, lo)
    ensures lo >= 0.0 ==> TrendOf(ts, vs, weight, stable) != Falling
    ensures lo * 60.0 >= stable + 0.00005 ==> TrendOf(ts, vs, weight, stable) == Rising
  {
    SlopeAtLeast(ts, vs, weight, lo);
    FewAreStable(ts, vs, weight, stable);
    Round4Near(lo * 60.0);
    LabelFollowsSlope(WeightedSlope(ts, vs, weight).value, stable, lo);
  }

  lemma {:induction false} TrendFalls(ts: seq<Option<real>>, vs: seq<Option<real>>, weight: real -> real, stable: real, hi: real)
    requires Positive(weight) && stable > 0.0 && TimesDiffer(ts, vs) && ClimbsNoFaster(ts, vs, hi)
    ensures hi <= 0.0 ==> TrendOf(ts, vs, weight, stable) != Rising
    ensures hi * 60.0 <= -stable - 0.00005 ==> TrendOf(ts, vs, weight, stable) == Falling
  {
    SlopeAtLeast(ts, vs, weight, hi);
    FewAreStable(ts, vs, weight, stable);
    Round4Near(hi * 60.0);
    LabelFollowsSlope(WeightedSlope(ts, vs, weight).value, stable, hi);
  }

  /** Without two different times the slope is 0 or missing. */
  lemma {:induction false} TrendAtOneTime(ts: seq<Option<real>>, vs: seq<Option<real>>, weight: real -> real, stable: real)
    requires Positive(weight) && stable > 0.0 && !TimesDiffer(ts, vs)
    ensures TrendOf(ts, vs, weight, stable) == Stable
  {
    var ss := Valid(ts, vs);
    SpansIff(ts, vs);
    if |ss| >= 2 {
      FitOfHistory(ss, Latest(ss), weight, 0.0);
      assert Round4(0.0) == 0.0;
    }
  }

  lemma {:induction false} LabelIsStable(slope: real, stable: real)
    ensures -stable + 0.00005 < slope * 60.0 < stable - 0.00005 ==> Label(Round4(slope * 60.0), stable) == Stable
  {
    Round4Near(slope * 60.0);
  }

  /**
   The label follows the rates between the recorded entries, per minute, whatever the weights: rates
   that are never negative are never labelled falling, rates that are never positive never rising,
   rates past the threshold on one side, by more than the rounding, get that side's label, and
   rates within it on both sides are stable.
   */
  lemma {:induction false} TrendFollowsRates(ts: seq<Option<real>>, vs: seq<Option<real>>, weight: real -> real, stable: real, lo: real, hi: real)
    requires Positive(weight) && stable > 0.0
    ensures ClimbsBy(ts, vs, lo) && lo >= 0.0 ==> TrendOf(ts, vs, weight, stable) != Falling
    ensures ClimbsNoFaster(ts, vs, hi) && hi <= 0.0 ==> TrendOf(ts, vs, weight, stable) != Rising
    ensures ClimbsBy(ts, vs, lo) && TimesDiffer(ts, vs) && lo * 60.0 >= stable + 0.00005 ==>
              TrendOf(ts, vs, weight, stable) == Rising
    ensures ClimbsNoFaster(ts, vs, hi) && TimesDiffer(ts, vs) && hi * 60.0 <= -stable - 0.00005 ==>
              TrendOf(ts, vs, weight, stable) == Falling
    ensures ClimbsBy(ts, vs, lo) && ClimbsNoFaster(ts, vs, hi)
            && -stable + 0.00005 < lo * 60.0 && hi * 60.0 < stable - 0.00005 ==>
              TrendOf(ts, vs, weight, stable) == Stable
  {
    if !TimesDiffer(ts, vs) {
      TrendAtOneTime(ts, vs, weight, stable);
    } else {
      if ClimbsBy(ts, vs, lo) { TrendRises(ts, vs, weight, stable, lo); }
      if ClimbsNoFaster(ts, vs, hi) { TrendFalls(ts, vs, weight, stable, hi); }
      SlopeAtLeast(ts, vs, weight, lo);
      SlopeAtLeast(ts, vs, weight, hi);
      FewAreStable(ts, vs, weight, stable);
      LabelIsStable(WeightedSlope(ts, vs, weight).value, stable);
    }
  }

  /** On a line the label is that of the line's slope, per minute and rounded to four decimals. */
  lemma {:induction false} TrendOfLine(ts: seq<Option<real>>, vs: seq<Option<real>>, weight: real -> real, stable: real, m: real, c: real)
    requires Positive(weight) && stable > 0.0 && TimesDiffer(ts, vs)
    requires LiesOn(ts, vs, m, c)
    ensures var trend := TrendOf(ts, vs, weight, stable);
            && (trend == Rising <==> Round4(m * 60.0) >= stable)
            && (trend == Falling <==> Round4(m * 60.0) <= -stable)
  {
    ExactExtrapolation(ts, vs, 0.0, weight, m, c);
    FewAreStable(ts, vs, weight, stable);
  }

  /** A history that never decreases is never labelled falling. */
  lemma {:induction false} NeverDecreasingNeverFalling(ts: seq<Option<real>>, vs: seq<Option<real>>, weight: real -> real, stable: real)
    requires Positive(weight) && stable > 0.0
    requires forall i, j :: Present(ts, vs, i) && Present(ts, vs, j) && ts[i].value < ts[j].value ==> vs[i].value <= vs[j].value
    ensures TrendOf(ts, vs, weight, stable) != Falling
  {
    assert ClimbsBy(ts, vs, 0.0);
    TrendFollowsRates(ts, vs, weight, stable, 0.0, 0.0);
  }

  /** For instance, a gap hides nothing of what follows it: the value rises by 60 a minute. */
  lemma {:induction false} GapInstance(weight: real -> real)
    requires Positive(weight)
    ensures var ts, vs := [Some(0.0), Some(30.0), Some(60.0), Some(90.0)], [Some(10.0), None, Some(70.0), Some(100.0)];
            PredictAt(ts, vs, 120.0, weight) == Some(130.0) && TrendOf(ts, vs, weight, 1.0) == Rising
  {
    var ts, vs := [Some(0.0), Some(30.0), Some(60.0), Some(90.0)], [Some(10.0), None, Some(70.0), Some(100.0)];
    assert LiesOn(ts, vs, 1.0, 10.0);
    assert Present(ts, vs, 0) && Present(ts, vs, 2);
    ExactExtrapolation(ts, vs, 120.0, weight, 1.0, 10.0);
    TrendOfLine(ts, vs, weight, 1.0, 1.0, 10.0);
    Round4Near(60.0);
  }
}
