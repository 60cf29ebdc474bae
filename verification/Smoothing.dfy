/**
 Per-user exponential smoothing of interface shares, and their conversion to
 integer weights. Shares are exact reals, in dictionary order.
 */
module Smoothing {
  import opened Products
  import opened Rounding

  datatype Share = Share(iface: string, p: real)

  /** A dictionary from interface to share: no interface appears twice. */
  ghost predicate DistinctIfaces(d: seq<Share>) {
    forall i, j :: 0 <= i < j < |d| ==> d[i].iface != d[j].iface
  }

  ghost predicate NonNegative(d: seq<Share>) {
    forall i :: 0 <= i < |d| ==> d[i].p >= 0.0
  }

  ghost predicate SomePositive(d: seq<Share>) {
    exists i :: 0 <= i < |d| && d[i].p > 0.0
  }

  ghost predicate SameKeys(d: seq<Share>, e: seq<Share>) {
    |d| == |e| && forall i :: 0 <= i < |d| ==> d[i].iface == e[i].iface
  }

  function Total(d: seq<Share>): real {
    if d == [] then 0.0 else d[0].p + Total(d[1..])
  }

  function Lookup(d: seq<Share>, iface: string, default: real): real {
    if d == [] then default else if d[0].iface == iface then d[0].p else Lookup(d[1..], iface, default)
  }

  /** A zero share is kept at zero; any other moves towards its new value. */
  function Blend(alpha: real, prev: seq<Share>, s: Share): Share {
    if s.p <= 0.0 then Share(s.iface, 0.0)
    else Share(s.iface, alpha * s.p + (1.0 - alpha) * Lookup(prev, s.iface, s.p))
  }

  function BlendAll(alpha: real, prev: seq<Share>, d: seq<Share>): (r: seq<Share>)
    ensures |r| == |d| && forall i :: 0 <= i < |d| ==> r[i] == Blend(alpha, prev, d[i])
  {
    seq(|d|, i requires 0 <= i < |d| => Blend(alpha, prev, d[i]))
  }

  function Normalise(d: seq<Share>): (r: seq<Share>)
    ensures SameKeys(d, r)
  {
    var total := Total(d);
    if total > 0.0 then seq(|d|, i requires 0 <= i < |d| => Share(d[i].iface, d[i].p / total)) else d
  }

  /** One smoothing call: the user's previous shares and the new ones give the stored shares. */
  function Smooth(alpha: real, prev: seq<Share>, d: seq<Share>): seq<Share> {
    Normalise(BlendAll(alpha, prev, d))
  }

  class Smoother {
    var ema: map<string, seq<Share>>

    method Apply(alpha: real, username: string, probs: seq<Share>) returns (result: seq<Share>)
      modifies this
      ensures probs == [] ==> result == [] && ema == old(ema)
      ensures probs != [] ==>
                && result == Smooth(alpha, if username in old(ema) then old(ema)[username] else [], probs)
                && ema == old(ema)[username := result]
    {
      if probs == [] {
        return probs;
      }
      var prev := if username in ema then ema[username] else [];
      var blended: seq<Share> := [];
      for i := 0 to |probs|
        invariant |blended| == i && forall j :: 0 <= j < i ==> blended[j] == Blend(alpha, prev, probs[j])
      {
        var s := probs[i];
        if s.p <= 0.0 {
          blended := blended + [Share(s.iface, 0.0)];
        } else {
          var before := Lookup(prev, s.iface, s.p);
          blended := blended + [Share(s.iface, alpha * s.p + (1.0 - alpha) * before)];
        }
      }
      assert blended == BlendAll(alpha, prev, probs);
      result := Normalise(blended);
      ema := ema[username := result];
    }
  }

  // ----- Invariants of one call and of every run

  lemma {:induction false} LookupNonNegative(d: seq<Share>, iface: string, default: real)
    requires NonNegative(d) && default >= 0.0
    ensures Lookup(d, iface, default) >= 0.0
  {
    if d != [] {
      assert forall i :: 0 < i < |d| ==> d[1..][i - 1] == d[i];
      LookupNonNegative(d[1..], iface, default);
    }
  }

  lemma {:induction false} TotalSign(d: seq<Share>)
    requires NonNegative(d)
    ensures Total(d) >= 0.0
    ensures Total(d) > 0.0 <==> SomePositive(d)
    ensures forall i :: 0 <= i < |d| ==> d[i].p <= Total(d)
  {
    if d != [] {
      var rest := d[1..];
      assert forall i :: 0 < i < |d| ==> rest[i - 1] == d[i];
      TotalSign(rest);
      if SomePositive(d) && d[0].p == 0.0 {
        var i :| 0 <= i < |d| && d[i].p > 0.0;
        assert rest[i - 1].p > 0.0;
      }
      if SomePositive(rest) {
        var i :| 0 <= i < |rest| && rest[i].p > 0.0;
        assert d[i + 1].p > 0.0;
      }
    }
  }

  lemma BlendSign(alpha: real, p: real, before: real) returns (b: real)
    requires 0.0 < alpha <= 1.0 && p > 0.0 && before >= 0.0
    ensures b == alpha * p + (1.0 - alpha) * before && b > 0.0
  {
    var x := alpha * p;
    var y := (1.0 - alpha) * before;
    assert x > 0.0 && y >= 0.0;
    b := x + y;
  }

  ghost predicate ScaledBy(d: seq<Share>, e: seq<Share>, k: real) {
    |d| == |e| && forall i :: 0 <= i < |d| ==> Times(e[i].p, k, d[i].p)
  }

  lemma {:induction false} TotalScaled(d: seq<Share>, e: seq<Share>, k: real)
    requires ScaledBy(d, e, k)
    ensures Total(e) * k == Total(d)
  {
    if d != [] {
      TotalScaled(d[1..], e[1..], k);
      Distribute(k, e[0].p, Total(e[1..]));
    }
  }

  ghost predicate SameSupport(d: seq<Share>, e: seq<Share>) {
    |d| == |e| && forall i :: 0 <= i < |d| ==> (e[i].p == 0.0 <==> d[i].p == 0.0)
  }

  lemma NormaliseScales(d: seq<Share>)
    requires NonNegative(d) && Total(d) > 0.0
    ensures NonNegative(Normalise(d)) && SameSupport(d, Normalise(d)) && ScaledBy(d, Normalise(d), Total(d))
  {
    var total, r := Total(d), Normalise(d);
    forall i | 0 <= i < |d| ensures r[i].p >= 0.0 && (r[i].p == 0.0 <==> d[i].p == 0.0) && r[i].p * total == d[i].p {
      DividedShare(d[i].p, total);
    }
  }

  lemma DividedShare(p: real, total: real)
    requires p >= 0.0 && total > 0.0
    ensures p / total >= 0.0 && (p / total == 0.0 <==> p == 0.0) && p / total * total == p
  {
    var q := Quotient(p, total);
  }

  lemma NormaliseInvariant(d: seq<Share>)
    requires NonNegative(d)
    ensures NonNegative(Normalise(d)) && SameSupport(d, Normalise(d))
    ensures Total(Normalise(d)) == if SomePositive(d) then 1.0 else 0.0
  {
    TotalSign(d);
    if SomePositive(d) {
      NormaliseScales(d);
      TotalScaled(d, Normalise(d), Total(d));
      CancelToOne(Total(Normalise(d)), Total(d), Total(d));
    }
  }

  lemma NormalisedAlready(d: seq<Share>)
    requires Total(d) == 1.0
    ensures Normalise(d) == d
  {
    assert forall i :: 0 <= i < |d| ==> Normalise(d)[i].p == d[i].p;
  }

  lemma BlendInvariant(alpha: real, prev: seq<Share>, d: seq<Share>)
    requires 0.0 < alpha <= 1.0 && NonNegative(prev) && NonNegative(d)
    ensures NonNegative(BlendAll(alpha, prev, d)) && SameSupport(d, BlendAll(alpha, prev, d))
  {
    var blended := BlendAll(alpha, prev, d);
    forall i | 0 <= i < |d| ensures blended[i].p >= 0.0 && (blended[i].p == 0.0 <==> d[i].p == 0.0) {
      if d[i].p > 0.0 {
        LookupNonNegative(prev, d[i].iface, d[i].p);
        var b := BlendSign(alpha, d[i].p, Lookup(prev, d[i].iface, d[i].p));
      }
    }
  }

  lemma {:induction false} LookupMissing(d: seq<Share>, iface: string, default: real)
    requires forall k :: 0 <= k < |d| ==> d[k].iface != iface
    ensures Lookup(d, iface, default) == default
  {
    if d != [] { LookupMissing(d[1..], iface, default); }
  }

  /**
   The blended value of a share: 0 for a zero share, the share itself for an interface without
   history, and otherwise alpha parts of it and the rest of the former value.
   */
  ghost predicate IsBlend(alpha: real, prev: seq<Share>, s: Share, x: real) {
    && (s.p <= 0.0 ==> x == 0.0)
    && (s.p > 0.0 && (forall k :: 0 <= k < |prev| ==> prev[k].iface != s.iface) ==> x == s.p)
    && (s.p > 0.0 ==> forall k :: 0 <= k < |prev| && prev[k].iface == s.iface ==> x == alpha * s.p + (1.0 - alpha) * prev[k].p)
  }

  lemma BlendIs(alpha: real, prev: seq<Share>, s: Share)
    requires DistinctIfaces(prev)
    ensures Blend(alpha, prev, s).iface == s.iface && IsBlend(alpha, prev, s, Blend(alpha, prev, s).p)
  {
    if forall k :: 0 <= k < |prev| ==> prev[k].iface != s.iface {
      LookupMissing(prev, s.iface, s.p);
      BlendWithItself(alpha, s.p);
    } else {
      forall k | 0 <= k < |prev| && prev[k].iface == s.iface ensures Lookup(prev, s.iface, s.p) == prev[k].p {
        LookupAt(prev, k, s.p);
      }
    }
  }

  lemma BlendWithItself(alpha: real, p: real)
    ensures alpha * p + (1.0 - alpha) * p == p
  {
  }

  /** The stored shares are the blended values divided by their positive sum. */
  lemma SmoothScalesBlends(alpha: real, prev: seq<Share>, d: seq<Share>) returns (blended: seq<Share>)
    requires 0.0 < alpha <= 1.0 && NonNegative(prev) && NonNegative(d) && DistinctIfaces(prev) && SomePositive(d)
    ensures |blended| == |d| && forall i :: 0 <= i < |d| ==> IsBlend(alpha, prev, d[i], blended[i].p)
    ensures Total(blended) > 0.0 && ScaledBy(blended, Smooth(alpha, prev, d), Total(blended))
  {
    blended := BlendAll(alpha, prev, d);
    forall i | 0 <= i < |d| ensures IsBlend(alpha, prev, d[i], blended[i].p) { BlendIs(alpha, prev, d[i]); }
    BlendInvariant(alpha, prev, d);
    TotalSign(blended);
    var i :| 0 <= i < |d| && d[i].p > 0.0;
    assert blended[i].p > 0.0;
    NormaliseScales(blended);
  }

  /** The first call stores a distribution as it is: no cold-start jump. */
  lemma FirstCallKeeps(alpha: real, d: seq<Share>)
    requires NonNegative(d) && Total(d) == 1.0
    ensures Smooth(alpha, [], d) == d
  {
    forall i | 0 <= i < |d| ensures Blend(alpha, [], d[i]) == d[i] {
      LookupMissing([], d[i].iface, d[i].p);
      BlendWithItself(alpha, d[i].p);
    }
    assert BlendAll(alpha, [], d) == d;
    NormalisedAlready(d);
  }

  /**
   What one call stores: the keys of its input in order, non-negative shares that are zero
   exactly where the input is, summing to 1 as soon as one input is positive.
   */
  lemma SmoothInvariant(alpha: real, prev: seq<Share>, d: seq<Share>)
    requires 0.0 < alpha <= 1.0 && NonNegative(prev) && NonNegative(d)
    ensures Follows(d, Smooth(alpha, prev, d))
  {
    BlendInvariant(alpha, prev, d);
    var blended := BlendAll(alpha, prev, d);
    NormaliseInvariant(blended);
    if SomePositive(d) {
      var i :| 0 <= i < |d| && d[i].p > 0.0;
      assert blended[i].p > 0.0;
    }
  }

  /** r has the keys and the support of d, no negative share, and sums to 1 unless d is all zero. */
  ghost predicate Follows(d: seq<Share>, r: seq<Share>) {
    SameKeys(d, r) && NonNegative(r) && SameSupport(d, r) && Total(r) == if SomePositive(d) then 1.0 else 0.0
  }

  /** The shares stored for one user after a run of calls. */
  function Run(alpha: real, prev: seq<Share>, calls: seq<seq<Share>>): seq<Share>
    decreases |calls|
  {
    if calls == [] then prev
    else Run(alpha, if calls[0] == [] then prev else Smooth(alpha, prev, calls[0]), calls[1..])
  }

  lemma {:induction false} RunStep(alpha: real, prev: seq<Share>, calls: seq<seq<Share>>, d: seq<Share>)
    requires d != []
    ensures Run(alpha, prev, calls + [d]) == Smooth(alpha, Run(alpha, prev, calls), d)
    decreases |calls|
  {
    if calls == [] {
      assert calls + [d] == [d];
    } else {
      assert (calls + [d])[1..] == calls[1..] + [d];
      RunStep(alpha, if calls[0] == [] then prev else Smooth(alpha, prev, calls[0]), calls[1..], d);
    }
  }

  lemma {:induction false} RunNonNegative(alpha: real, prev: seq<Share>, calls: seq<seq<Share>>)
    requires 0.0 < alpha <= 1.0 && NonNegative(prev)
    requires forall k :: 0 <= k < |calls| ==> NonNegative(calls[k])
    ensures NonNegative(Run(alpha, prev, calls))
    decreases |calls|
  {
    if calls != [] {
      SmoothInvariant(alpha, prev, calls[0]);
      RunNonNegative(alpha, if calls[0] == [] then prev else Smooth(alpha, prev, calls[0]), calls[1..]);
    }
  }

  /** Over every run of non-negative vectors, the stored shares follow the last vector. */
  lemma RunInvariant(alpha: real, calls: seq<seq<Share>>, d: seq<Share>)
    requires 0.0 < alpha <= 1.0 && d != [] && NonNegative(d)
    requires forall k :: 0 <= k < |calls| ==> NonNegative(calls[k])
    ensures Follows(d, Run(alpha, [], calls + [d]))
  {
    RunStep(alpha, [], calls, d);
    RunNonNegative(alpha, [], calls);
    SmoothInvariant(alpha, Run(alpha, [], calls), d);
  }

  // ----- Convergence

  function Power(x: real, n: nat): real {
    if n == 0 then 1.0 else x * Power(x, n - 1)
  }

  /** n calls with the same vector. */
  function Repeat(alpha: real, prev: seq<Share>, d: seq<Share>, n: nat): seq<Share> {
    if n == 0 then prev else Smooth(alpha, Repeat(alpha, prev, d, n - 1), d)
  }

  lemma {:induction false} LookupAt(d: seq<Share>, i: nat, default: real)
    requires DistinctIfaces(d) && i < |d|
    ensures Lookup(d, d[i].iface, default) == d[i].p
  {
    if i > 0 { LookupAt(d[1..], i - 1, default); }
  }

  lemma BlendTotalStep(alpha: real, p: real, e: real, restP: real, restE: real)
    ensures (alpha * p + (1.0 - alpha) * e) + (alpha * restP + (1.0 - alpha) * restE) ==
            alpha * (p + restP) + (1.0 - alpha) * (e + restE)
  {
  }

  lemma {:induction false} TotalOfBlend(alpha: real, e: seq<Share>, d: seq<Share>, b: seq<Share>)
    requires |e| == |d| == |b|
    requires forall i :: 0 <= i < |d| ==> b[i].p == alpha * d[i].p + (1.0 - alpha) * e[i].p
    ensures Total(b) == alpha * Total(d) + (1.0 - alpha) * Total(e)
  {
    if d != [] {
      TotalOfBlend(alpha, e[1..], d[1..], b[1..]);
      BlendTotalStep(alpha, d[0].p, e[0].p, Total(d[1..]), Total(e[1..]));
    }
  }

  lemma BlendOfDistributions(alpha: real, e: seq<Share>, d: seq<Share>)
    requires 0.0 < alpha <= 1.0 && DistinctIfaces(d) && NonNegative(d) && Follows(d, e)
    ensures forall i :: 0 <= i < |d| ==> BlendAll(alpha, e, d)[i].p == alpha * d[i].p + (1.0 - alpha) * e[i].p
  {
    var b := BlendAll(alpha, e, d);
    forall i | 0 <= i < |d| ensures b[i].p == alpha * d[i].p + (1.0 - alpha) * e[i].p {
      LookupAt(e, i, d[i].p);
      BlendOfZero(alpha);
    }
  }

  lemma BlendOfZero(alpha: real)
    ensures alpha * 0.0 + (1.0 - alpha) * 0.0 == 0.0
  {
  }

  lemma BlendOfOnes(alpha: real, x: real, y: real)
    requires x == 1.0 && y == 1.0
    ensures alpha * x + (1.0 - alpha) * y == 1.0
  {
  }

  lemma NoRenormalisation(alpha: real, e: seq<Share>, d: seq<Share>)
    requires 0.0 < alpha <= 1.0 && DistinctIfaces(d) && NonNegative(d) && Total(d) == 1.0 && Follows(d, e)
    ensures Smooth(alpha, e, d) == BlendAll(alpha, e, d)
  {
    TotalSign(d);
    BlendOfDistributions(alpha, e, d);
    TotalOfBlend(alpha, e, d, BlendAll(alpha, e, d));
    BlendOfOnes(alpha, Total(d), Total(e));
    NormalisedAlready(BlendAll(alpha, e, d));
  }

  /** Once the stored shares follow the distribution d, a call with d contracts exactly. */
  lemma ExactContraction(alpha: real, e: seq<Share>, d: seq<Share>)
    requires 0.0 < alpha <= 1.0 && DistinctIfaces(d) && NonNegative(d) && Total(d) == 1.0 && Follows(d, e)
    ensures Contracted(d, e, Smooth(alpha, e, d), 1.0 - alpha)
  {
    NoRenormalisation(alpha, e, d);
    BlendOfDistributions(alpha, e, d);
    var b := BlendAll(alpha, e, d);
    forall i | 0 <= i < |d| ensures b[i].p - d[i].p == (1.0 - alpha) * (e[i].p - d[i].p) {
      BlendGap(alpha, d[i].p, e[i].p);
    }
  }

  lemma BlendGap(alpha: real, p: real, e: real)
    ensures alpha * p + (1.0 - alpha) * e - p == (1.0 - alpha) * (e - p)
  {
  }

  /** Every share of `e` is `factor` times as far from `d` as the one of `first`. */
  ghost predicate Contracted(d: seq<Share>, first: seq<Share>, e: seq<Share>, factor: real) {
    |d| == |first| == |e| && forall i :: 0 <= i < |d| ==> e[i].p - d[i].p == factor * (first[i].p - d[i].p)
  }

  lemma ContractAgain(d: seq<Share>, first: seq<Share>, e: seq<Share>, e': seq<Share>, x: real, n: nat)
    requires Contracted(d, first, e, Power(x, n)) && Contracted(d, e, e', x)
    ensures Contracted(d, first, e', Power(x, n + 1))
  {
    forall i | 0 <= i < |d| ensures e'[i].p - d[i].p == Power(x, n + 1) * (first[i].p - d[i].p) {
      Associate(x, Power(x, n), first[i].p - d[i].p, e[i].p - d[i].p, Power(x, n + 1));
    }
  }

  lemma Associate(x: real, y: real, z: real, w: real, xy: real)
    requires w == y * z && xy == x * y
    ensures x * w == xy * z
  {
  }

  lemma ContractOnce(alpha: real, first: seq<Share>, e: seq<Share>, d: seq<Share>, n: nat)
    requires 0.0 < alpha <= 1.0 && DistinctIfaces(d) && NonNegative(d) && Total(d) == 1.0 && Follows(d, e)
    requires Contracted(d, first, e, Power(1.0 - alpha, n))
    ensures Contracted(d, first, Smooth(alpha, e, d), Power(1.0 - alpha, n + 1))
  {
    ExactContraction(alpha, e, d);
    ContractAgain(d, first, e, Smooth(alpha, e, d), 1.0 - alpha, n);
  }

  lemma {:induction false} RepeatFollows(alpha: real, prev: seq<Share>, d: seq<Share>, n: nat)
    requires 0.0 < alpha <= 1.0 && NonNegative(d) && NonNegative(prev)
    ensures Follows(d, Repeat(alpha, prev, d, n + 1))
  {
    if n > 0 { RepeatFollows(alpha, prev, d, n - 1); }
    SmoothInvariant(alpha, Repeat(alpha, prev, d, n), d);
  }

  /**
   Repeating one distribution d: after the first call, every further call multiplies each
   share's distance to d by exactly 1 - alpha, whatever was stored before.
   */
  lemma {:induction false} GeometricConvergence(alpha: real, prev: seq<Share>, d: seq<Share>, n: nat)
    requires 0.0 < alpha <= 1.0 && DistinctIfaces(d) && NonNegative(d) && Total(d) == 1.0 && NonNegative(prev)
    ensures Contracted(d, Repeat(alpha, prev, d, 1), Repeat(alpha, prev, d, n + 1), Power(1.0 - alpha, n))
  {
    RepeatFollows(alpha, prev, d, if n == 0 then 0 else n - 1);
    if n == 0 {
      TimesOne(d, Repeat(alpha, prev, d, 1), 1.0 - alpha);
    } else {
      GeometricConvergence(alpha, prev, d, n - 1);
      ContractMore(alpha, prev, Repeat(alpha, prev, d, 1), d, n);
    }
  }

  lemma ContractMore(alpha: real, prev: seq<Share>, first: seq<Share>, d: seq<Share>, n: nat)
    requires 0.0 < alpha <= 1.0 && DistinctIfaces(d) && NonNegative(d) && Total(d) == 1.0
    requires n > 0 && Follows(d, Repeat(alpha, prev, d, n))
    requires Contracted(d, first, Repeat(alpha, prev, d, n), Power(1.0 - alpha, n - 1))
    ensures Contracted(d, first, Repeat(alpha, prev, d, n + 1), Power(1.0 - alpha, n))
  {
    ContractOnce(alpha, first, Repeat(alpha, prev, d, n), d, n - 1);
  }

  lemma TimesOne(d: seq<Share>, first: seq<Share>, x: real)
    requires |d| == |first|
    ensures Contracted(d, first, first, Power(x, 0))
  {
  }

  // ----- Integer weights

  /** `max(1, round(p * 255))` */
  function Weight(p: real): int {
    if Round(p * 255.0) < 1 then 1 else Round(p * 255.0)
  }

  function TotalWeight(d: seq<Share>): int {
    if d == [] then 0 else Weight(d[0].p) + TotalWeight(d[1..])
  }

  lemma WeightBounds(p: real)
    requires 0.0 <= p <= 1.0
    ensures 1 <= Weight(p) <= 255
    ensures p * 255.0 - 0.5 <= Weight(p) as real <= p * 255.0 + 1.0
    ensures p == 0.0 ==> Weight(p) == 1
  {
    RoundNearest(p * 255.0);
    RoundMonotone(p * 255.0, 255.0);
  }

  /** The weight is the integer nearest to 255 p, a tie going to the even one, and never less than 1. */
  lemma WeightNearest(p: real)
    ensures p * 255.0 >= 0.5 ==> p * 255.0 - 0.5 <= Weight(p) as real <= p * 255.0 + 0.5
    ensures p * 255.0 <= 1.5 ==> Weight(p) <= 2 && (p * 255.0 < 1.5 ==> Weight(p) == 1)
    ensures forall n :: n >= 1 && p * 255.0 == n as real + 0.5 ==> Weight(p) == if n % 2 == 0 then n else n + 1
  {
    RoundNearest(p * 255.0);
    forall n | n >= 1 && p * 255.0 == n as real + 0.5 ensures Weight(p) == if n % 2 == 0 then n else n + 1 { RoundTies(n); }
  }

  lemma WeightMonotone(p: real, q: real)
    requires p <= q
    ensures Weight(p) <= Weight(q)
  {
    RoundMonotone(p * 255.0, q * 255.0);
  }

  lemma {:induction false} TotalWeightBounds(d: seq<Share>)
    requires forall i :: 0 <= i < |d| ==> 0.0 <= d[i].p <= 1.0
    ensures Total(d) * 255.0 - |d| as real / 2.0 <= TotalWeight(d) as real <= Total(d) * 255.0 + |d| as real
  {
    if d != [] {
      WeightBounds(d[0].p);
      TotalWeightBounds(d[1..]);
    }
  }

  /** The integer weights of a distribution: within 1..255, in the order of the shares, and totalling about 255. */
  lemma WeightsOfDistribution(d: seq<Share>)
    requires NonNegative(d) && Total(d) == 1.0
    ensures forall i :: 0 <= i < |d| ==> 1 <= Weight(d[i].p) <= 255
    ensures forall i, j :: 0 <= i < |d| && 0 <= j < |d| && d[i].p <= d[j].p ==> Weight(d[i].p) <= Weight(d[j].p)
    ensures 255.0 - |d| as real / 2.0 <= TotalWeight(d) as real <= 255.0 + |d| as real
  {
    TotalSign(d);
    TotalWeightBounds(d);
    forall i | 0 <= i < |d| ensures 1 <= Weight(d[i].p) <= 255 { WeightBounds(d[i].p); }
    forall i, j | 0 <= i < |d| && 0 <= j < |d| && d[i].p <= d[j].p ensures Weight(d[i].p) <= Weight(d[j].p) {
      WeightMonotone(d[i].p, d[j].p);
    }
  }
}
