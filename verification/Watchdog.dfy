/** The training watchdog: repeated divergent losses reset the model. */
module Watchdog {
  datatype Loss = Finite(value: real) | NonFinite

  const MAX_LOSS := 5.0
  const BAD_STREAK_LIMIT := 3

  /** A loss that is not a number, infinite or above 5. */
  predicate Bad(loss: Loss) {
    loss.NonFinite? || loss.value > 5.0
  }

  datatype State = State(streak: nat, resets: nat)

  function Step(s: State, loss: Loss): State {
    if !Bad(loss) then s.(streak := 0)
    else if s.streak + 1 < BAD_STREAK_LIMIT then s.(streak := s.streak + 1)
    else State(0, s.resets + 1)
  }

  class Monitor {
    var streak: nat
    var resets: nat

    ghost function Abstract(): State
      reads this
    {
      State(streak, resets)
    }

    method Observe(loss: Loss)
      modifies this
      ensures Abstract() == Step(old(Abstract()), loss)
    {
      if loss.Finite? && loss.value <= MAX_LOSS {
        streak := 0;
        return;
      }
      streak := streak + 1;
      if streak < BAD_STREAK_LIMIT {
        return;
      }
      resets := resets + 1;
      streak := 0;
    }

    /**
     A sequence of training rounds. With a streak already running, the losses before it count as
     the start of the first bad run.
     */
    method ObserveAll(losses: seq<Loss>)
      requires streak < BAD_STREAK_LIMIT
      modifies this
      ensures streak < BAD_STREAK_LIMIT
      ensures resets == old(resets) + Thirds(RunLengths(BadLosses(old(streak)) + losses))
    {
      ghost var start := Abstract();
      for i := 0 to |losses|
        invariant Abstract() == Run(start, losses[..i])
      {
        RunSnoc(start, losses[..i], losses[i]);
        assert losses[..i + 1] == losses[..i] + [losses[i]];
        Observe(losses[i]);
      }
      assert losses[..|losses|] == losses;
      RunFromStreak(start, losses);
    }
  }

  function Run(s: State, losses: seq<Loss>): State
    decreases |losses|
  {
    if losses == [] then s else Run(Step(s, losses[0]), losses[1..])
  }

  /** Length of the run of bad losses the sequence starts with. */
  function LeadingRun(losses: seq<Loss>): (n: nat)
    ensures n <= |losses|
    ensures forall i :: 0 <= i < n ==> Bad(losses[i])
    ensures n < |losses| ==> !Bad(losses[n])
  {
    if losses != [] && Bad(losses[0]) then 1 + LeadingRun(losses[1..]) else 0
  }

  /** Lengths of the maximal runs of bad losses, in order. */
  function RunLengths(losses: seq<Loss>): seq<nat>
    decreases |losses|
  {
    if losses == [] then []
    else if Bad(losses[0]) then [LeadingRun(losses)] + RunLengths(losses[LeadingRun(losses)..])
    else RunLengths(losses[1..])
  }

  function Thirds(lengths: seq<nat>): nat {
    if lengths == [] then 0 else lengths[0] / 3 + Thirds(lengths[1..])
  }

  lemma {:induction false} RunOfBadLosses(s: State, losses: seq<Loss>, n: nat)
    requires s.streak < 3 && n <= |losses|
    requires forall i :: 0 <= i < n ==> Bad(losses[i])
    ensures Run(s, losses) == Run(State((s.streak + n) % 3, s.resets + (s.streak + n) / 3), losses[n..])
    decreases n
  {
    if n == 0 {
      assert losses[0..] == losses;
    } else {
      var s' := Step(s, losses[0]);
      RunOfBadLosses(s', losses[1..], n - 1);
      assert losses[1..][n - 1..] == losses[n..];
    }
  }

  /**
   Over every sequence of losses the streak stays below the limit, and the model is reset once
   for every three losses of each maximal bad run.
   */
  lemma {:induction false} ResetsCountThirds(resets: nat, losses: seq<Loss>)
    ensures Run(State(0, resets), losses).streak < BAD_STREAK_LIMIT
    ensures Run(State(0, resets), losses).resets == resets + Thirds(RunLengths(losses))
    decreases |losses|
  {
    if losses != [] {
      if Bad(losses[0]) {
        var n := LeadingRun(losses);
        var rest := losses[n..];
        RunOfBadLosses(State(0, resets), losses, n);
        var after := State(n % 3, resets + n / 3);
        if rest != [] {
          assert Step(after, rest[0]) == State(0, after.resets);
          ResetsCountThirds(after.resets, rest[1..]);
          assert RunLengths(rest) == RunLengths(rest[1..]);
        }
      } else {
        ResetsCountThirds(resets, losses[1..]);
      }
    }
  }

  lemma {:induction false} RunSnoc(s: State, losses: seq<Loss>, last: Loss)
    ensures Run(s, losses + [last]) == Step(Run(s, losses), last)
    decreases |losses|
  {
    if losses == [] {
      assert [] + [last] == [last] && [last][1..] == [];
    } else {
      assert (losses + [last])[1..] == losses[1..] + [last];
      RunSnoc(Step(s, losses[0]), losses[1..], last);
    }
  }

  /** As many bad losses as the streak counts. */
  function BadLosses(n: nat): seq<Loss> {
    seq(n, _ => NonFinite)
  }

  /** A running streak is as good as the bad losses it stands for. */
  lemma RunFromStreak(s: State, losses: seq<Loss>)
    requires s.streak < BAD_STREAK_LIMIT
    ensures Run(s, losses).streak < BAD_STREAK_LIMIT
    ensures Run(s, losses).resets == s.resets + Thirds(RunLengths(BadLosses(s.streak) + losses))
  {
    var all := BadLosses(s.streak) + losses;
    RunOfBadLosses(State(0, s.resets), all, s.streak);
    assert all[s.streak..] == losses;
    ResetsCountThirds(s.resets, all);
  }
}
