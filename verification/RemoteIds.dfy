/**
 Converging the MPTCP scheduler maps of the server to the router's request:
 DSCP class to remote id, and remote id to weight. The exit code of a push
 script is ignored, so a push may have no effect; and a request can be cut short
 between any two pushes or while its record is written. The known DSCP classes
 are a parameter.
 */
module RemoteIds {
  import opened Sets

  datatype DscpPin = DscpPin(dscp: string, remoteId: int)
  datatype WeightPin = WeightPin(remoteId: int, weight: int)

  predicate ValidDscpPin(pin: DscpPin, classes: seq<string>) {
    pin.dscp in classes && 0 <= pin.remoteId <= 255
  }

  predicate ValidWeightPin(pin: WeightPin) {
    0 <= pin.remoteId <= 255 && pin.weight > 0
  }

  /** The requested map; a later pin for the same class wins. */
  function DesiredIds(pins: seq<DscpPin>): map<string, int> {
    if pins == [] then map[]
    else
      var last := pins[|pins| - 1];
      DesiredIds(pins[..|pins| - 1])[last.dscp := last.remoteId]
  }

  function DesiredWeights(pins: seq<WeightPin>): map<int, int> {
    if pins == [] then map[]
    else
      var last := pins[|pins| - 1];
      DesiredWeights(pins[..|pins| - 1])[last.remoteId := last.weight]
  }

  /** The requested classes are those some pin names, and the last pin of a class gives its id. */
  lemma {:induction false} LastIdWins(pins: seq<DscpPin>, i: nat, dscp: string)
    requires i < |pins| && forall j :: i < j < |pins| ==> pins[j].dscp != pins[i].dscp
    ensures dscp in DesiredIds(pins) <==> exists j :: 0 <= j < |pins| && pins[j].dscp == dscp
    ensures pins[i].dscp in DesiredIds(pins) && DesiredIds(pins)[pins[i].dscp] == pins[i].remoteId
  {
    NamedClasses(pins, dscp);
    if i < |pins| - 1 { LastIdWins(pins[..|pins| - 1], i, dscp); }
  }

  lemma {:induction false} NamedClasses(pins: seq<DscpPin>, dscp: string)
    ensures dscp in DesiredIds(pins) <==> exists j :: 0 <= j < |pins| && pins[j].dscp == dscp
  {
    if pins != [] { NamedClasses(pins[..|pins| - 1], dscp); }
  }

  /** Likewise for weights. */
  lemma {:induction false} LastWeightWins(pins: seq<WeightPin>, i: nat, id: int)
    requires i < |pins| && forall j :: i < j < |pins| ==> pins[j].remoteId != pins[i].remoteId
    ensures id in DesiredWeights(pins) <==> exists j :: 0 <= j < |pins| && pins[j].remoteId == id
    ensures pins[i].remoteId in DesiredWeights(pins) && DesiredWeights(pins)[pins[i].remoteId] == pins[i].weight
  {
    WeightedIds(pins, id);
    if i < |pins| - 1 { LastWeightWins(pins[..|pins| - 1], i, id); }
  }

  lemma {:induction false} WeightedIds(pins: seq<WeightPin>, id: int)
    ensures id in DesiredWeights(pins) <==> exists j :: 0 <= j < |pins| && pins[j].remoteId == id
  {
    if pins != [] { WeightedIds(pins[..|pins| - 1], id); }
  }

  // ----- DSCP classes

  /** One push: set the class to its requested id, or delete it. */
  function Push(live: map<string, int>, desired: map<string, int>, dscp: string): map<string, int> {
    if dscp in desired then live[dscp := desired[dscp]] else live - {dscp}
  }

  /** A push for each class in turn. */
  function Pass(live: map<string, int>, desired: map<string, int>, classes: seq<string>): map<string, int> {
    if classes == [] then live
    else Push(Pass(live, desired, classes[..|classes| - 1]), desired, classes[|classes| - 1])
  }

  method CollectIds(pins: seq<DscpPin>, classes: seq<string>) returns (ok: bool, desired: map<string, int>)
    ensures ok <==> forall i :: 0 <= i < |pins| ==> ValidDscpPin(pins[i], classes)
    ensures ok ==> desired == DesiredIds(pins)
  {
    desired := map[];
    for i := 0 to |pins|
      invariant desired == DesiredIds(pins[..i])
      invariant forall j :: 0 <= j < i ==> ValidDscpPin(pins[j], classes)
    {
      if pins[i].dscp !in classes || !(0 <= pins[i].remoteId <= 255) {
        return false, desired;
      }
      desired := desired[pins[i].dscp := pins[i].remoteId];
      assert pins[..i + 1][..i] == pins[..i];
    }
    assert pins[..|pins|] == pins;
    ok := true;
  }

  datatype Reply = Rejected | Interrupted | Done

  class DscpMap {
    const classes: seq<string>
    var live: map<string, int>

    constructor (classes: seq<string>, live: map<string, int>)
      ensures this.classes == classes && this.live == live
    {
      this.classes, this.live := classes, live;
    }

    /** Push every class in turn; `pushed` are the classes whose push took effect. */
    method Sync(pins: seq<DscpPin>) returns (reply: Reply, ghost faulty: bool, ghost pushed: seq<string>)
      modifies this
      ensures reply != Rejected <==> forall i :: 0 <= i < |pins| ==> ValidDscpPin(pins[i], classes)
      ensures live == if reply == Rejected then old(live) else Pass(old(live), DesiredIds(pins), pushed)
      ensures forall c :: c in pushed ==> c in classes
      ensures reply != Rejected && !faulty ==> reply == Done && pushed == classes
    {
      faulty, pushed := false, [];
      var ok, desired := CollectIds(pins, classes);
      if !ok {
        return Rejected, faulty, pushed;
      }
      for n := 0 to |classes|
        invariant live == Pass(old(live), desired, pushed)
        invariant forall c :: c in pushed ==> c in classes
        invariant !faulty ==> pushed == classes[..n]
      {
        var dscp := classes[n];
        var cut: bool, failed: bool := *, *;
        if cut {
          return Interrupted, true, pushed;
        }
        if failed {
          faulty := true;
        } else {
          assert (pushed + [dscp])[..|pushed|] == pushed;
          pushed := pushed + [dscp];
          if dscp in desired {
            live := live[dscp := desired[dscp]];
          } else {
            live := live - {dscp};
          }
        }
      }
      assert classes[..|classes|] == classes;
      reply := Done;
    }
  }

  lemma {:induction false} DesiredIdsKnown(pins: seq<DscpPin>, classes: seq<string>)
    requires forall i :: 0 <= i < |pins| ==> ValidDscpPin(pins[i], classes)
    ensures Known(DesiredIds(pins), classes)
  {
    if pins != [] { DesiredIdsKnown(pins[..|pins| - 1], classes); }
  }

  lemma {:induction false} PassAt(live: map<string, int>, desired: map<string, int>, classes: seq<string>, c: string)
    ensures var from := if c in classes then desired else live;
            var after := Pass(live, desired, classes);
            (c in after <==> c in from) && (c in from ==> after[c] == from[c])
  {
    if classes != [] {
      var init, last := classes[..|classes| - 1], classes[|classes| - 1];
      PassAt(live, desired, init, c);
      assert classes == init + [last];
    }
  }

  ghost predicate Known(m: map<string, int>, classes: seq<string>) {
    forall c :: c in m ==> c in classes
  }

  /** An uninterrupted pass reaches the requested map from any live state over the known classes. */
  lemma PassConverges(live: map<string, int>, desired: map<string, int>, classes: seq<string>)
    requires Known(live, classes) && Known(desired, classes)
    ensures Pass(live, desired, classes) == desired
  {
    var reached := Pass(live, desired, classes);
    forall c ensures (c in reached <==> c in desired) && (c in desired ==> reached[c] == desired[c]) {
      PassAt(live, desired, classes, c);
    }
  }

  /** A pass of which only the pushes for the classes of `pushed` took effect is repaired by the next full one. */
  lemma FaultyPassIsRepaired(live: map<string, int>, cut: map<string, int>, pushed: seq<string>, desired: map<string, int>, classes: seq<string>)
    requires Known(live, classes) && Known(desired, classes) && forall c :: c in pushed ==> c in classes
    ensures Pass(Pass(live, cut, pushed), desired, classes) == desired
  {
    var partial := Pass(live, cut, pushed);
    forall c | c in partial ensures c in classes { PassAt(live, cut, pushed, c); }
    PassConverges(partial, desired, classes);
  }

  // ----- Weights

  datatype Weights = Weights(live: map<int, int>, recorded: set<int>)

  /** What a complete sync leaves: requested ids set, recorded ids no longer requested deleted. */
  function Synced(s: Weights, desired: map<int, int>): Weights {
    Weights((s.live + desired) - (s.recorded - desired.Keys), desired.Keys)
  }

  /** How far a sync came with its record: not there yet, cut off while writing it, or through. */
  datatype Stage = Pushing | Recording(written: set<int>) | Recorded

  /** The ids whose set and delete took effect, and the record. */
  datatype Attempt = Attempt(sets: set<int>, deletes: set<int>, stage: Stage)

  ghost predicate Possible(s: Weights, desired: map<int, int>, a: Attempt) {
    a.sets <= desired.Keys && a.deletes <= s.recorded - desired.Keys
  }

  /** What a sync leaves under faults. */
  function Attempted(s: Weights, desired: map<int, int>, a: Attempt): Weights {
    Weights((s.live + (desired - (desired.Keys - a.sets))) - a.deletes,
            match a.stage
            case Pushing => s.recorded
            case Recording(written) => written
            case Recorded => desired.Keys)
  }

  /** A sync without faults. */
  function Complete(s: Weights, desired: map<int, int>): Attempt {
    Attempt(desired.Keys, s.recorded - desired.Keys, Recorded)
  }

  lemma CompleteIsSynced(s: Weights, desired: map<int, int>)
    ensures Attempted(s, desired, Complete(s, desired)) == Synced(s, desired)
  {
    assert desired - (desired.Keys - desired.Keys) == desired;
  }

  method CollectWeights(pins: seq<WeightPin>) returns (ok: bool, desired: map<int, int>)
    ensures ok <==> forall i :: 0 <= i < |pins| ==> ValidWeightPin(pins[i])
    ensures ok ==> desired == DesiredWeights(pins)
  {
    desired := map[];
    for i := 0 to |pins|
      invariant desired == DesiredWeights(pins[..i])
      invariant forall j :: 0 <= j < i ==> ValidWeightPin(pins[j])
    {
      if !(0 <= pins[i].remoteId <= 255) || pins[i].weight <= 0 {
        return false, desired;
      }
      desired := desired[pins[i].remoteId := pins[i].weight];
      assert pins[..i + 1][..i] == pins[..i];
    }
    assert pins[..|pins|] == pins;
    ok := true;
  }

  class WeightMap {
    var live: map<int, int>
    var recorded: set<int>

    ghost function Abstract(): Weights
      reads this
    {
      Weights(live, recorded)
    }

    /** Push the requested ids in some order; a push may fail, and the request may be cut short. */
    method SetAll(desired: map<int, int>) returns (cut: bool, ghost faulty: bool, ghost sets: set<int>)
      modifies this`live
      ensures sets <= desired.Keys && live == old(live) + (desired - (desired.Keys - sets))
      ensures cut ==> faulty
      ensures !faulty ==> sets == desired.Keys
    {
      var todo := desired.Keys;
      cut, faulty, sets := false, false, {};
      while todo != {}
        invariant todo <= desired.Keys && sets <= desired.Keys - todo
        invariant live == old(live) + (desired - (desired.Keys - sets))
        invariant !faulty ==> sets == desired.Keys - todo
        decreases |todo|
      {
        var stop: bool, failed: bool := *, *;
        if stop {
          return true, true, sets;
        }
        ghost var some := Member(todo);
        var id :| id in todo;
        if failed {
          faulty := true;
        } else {
          live := live[id := desired[id]];
          sets := sets + {id};
        }
        todo := todo - {id};
      }
    }

    method DeleteAll(ids: set<int>) returns (cut: bool, ghost faulty: bool, ghost deletes: set<int>)
      modifies this`live
      ensures deletes <= ids && live == old(live) - deletes
      ensures cut ==> faulty
      ensures !faulty ==> deletes == ids
    {
      var todo := ids;
      cut, faulty, deletes := false, false, {};
      while todo != {}
        invariant todo <= ids && deletes <= ids - todo
        invariant live == old(live) - deletes
        invariant !faulty ==> deletes == ids - todo
        decreases |todo|
      {
        var stop: bool, failed: bool := *, *;
        if stop {
          return true, true, deletes;
        }
        ghost var some := Member(todo);
        var id :| id in todo;
        if failed {
          faulty := true;
        } else {
          live := live - {id};
          deletes := deletes + {id};
        }
        todo := todo - {id};
      }
    }

    /** Set the requested ids, delete recorded ones no longer requested, and replace the record, which truncates it first. */
    method Sync(pins: seq<WeightPin>) returns (reply: Reply, ghost faulty: bool, ghost a: Attempt)
      modifies this
      ensures reply != Rejected <==> forall i :: 0 <= i < |pins| ==> ValidWeightPin(pins[i])
      ensures reply == Rejected ==> Abstract() == old(Abstract())
      ensures reply != Rejected ==>
                && Possible(old(Abstract()), DesiredWeights(pins), a)
                && Abstract() == Attempted(old(Abstract()), DesiredWeights(pins), a)
                && (reply == Done <==> a.stage == Recorded)
                && (!faulty ==> Abstract() == Synced(old(Abstract()), DesiredWeights(pins)))
    {
      faulty, a := false, Attempt({}, {}, Pushing);
      var ok, desired := CollectWeights(pins);
      if !ok {
        return Rejected, faulty, a;
      }
      ghost var before := Abstract();
      var cut;
      ghost var sets, deletes, faulty2;
      cut, faulty, sets := SetAll(desired);
      a := a.(sets := sets);
      if cut {
        return Interrupted, faulty, a;
      }
      cut, faulty2, deletes := DeleteAll(recorded - desired.Keys);
      a := a.(deletes := deletes);
      faulty := faulty || faulty2;
      if cut {
        return Interrupted, faulty, a;
      }
      var recording: bool := *;
      if !recording {
        recorded := *;                      // empty, or what a cut-off text reads as
        return Interrupted, true, a.(stage := Recording(recorded));
      }
      recorded := desired.Keys;
      a := a.(stage := Recorded);
      CompleteIsSynced(before, desired);
      reply := Done;
    }
  }

  /** A complete sync reaches the request exactly when every live id was recorded or is requested. */
  lemma SyncReachesIff(s: Weights, desired: map<int, int>)
    ensures Synced(s, desired).live == desired <==> s.live.Keys <= s.recorded + desired.Keys
  {
    var after := Synced(s, desired).live;
    if s.live.Keys <= s.recorded + desired.Keys {
      assert forall id :: id in after <==> id in desired;
    } else {
      var id := Outsider(s.live.Keys, s.recorded + desired.Keys);
      assert id in after;
    }
  }

  function RunSyncs(s: Weights, requests: seq<map<int, int>>): Weights
    decreases |requests|
  {
    if requests == [] then s else RunSyncs(Synced(s, requests[0]), requests[1..])
  }

  /** The ids some request of a run names. */
  function NamedIds(requests: seq<map<int, int>>): set<int> {
    if requests == [] then {} else requests[0].Keys + NamedIds(requests[1..])
  }

  /** A run of complete syncs ends at its last request exactly when every live id was recorded or some request names it. */
  lemma {:induction false} RunReachesIff(s: Weights, requests: seq<map<int, int>>)
    requires requests != []
    ensures RunSyncs(s, requests).live == requests[|requests| - 1] <==> s.live.Keys <= s.recorded + NamedIds(requests)
    decreases |requests|
  {
    var rest := requests[1..];
    if rest == [] {
      SyncReachesIff(s, requests[0]);
      assert NamedIds(requests) == requests[0].Keys;
    } else {
      var next := Synced(s, requests[0]);
      RunReachesIff(next, rest);
      assert next.live.Keys == s.live.Keys + requests[0].Keys - (s.recorded - requests[0].Keys);
    }
  }

  /** Once live ids are recorded, every run of complete syncs keeps them so and ends at its last request. */
  lemma RunReachesLastRequest(s: Weights, requests: seq<map<int, int>>)
    requires s.live.Keys <= s.recorded && requests != []
    ensures RunSyncs(s, requests) == Weights(requests[|requests| - 1], requests[|requests| - 1].Keys)
  {
    RunReachesIff(s, requests);
    RunRecordsLast(s, requests);
  }

  lemma {:induction false} RunRecordsLast(s: Weights, requests: seq<map<int, int>>)
    requires requests != []
    ensures RunSyncs(s, requests).recorded == requests[|requests| - 1].Keys
    decreases |requests|
  {
    if |requests| > 1 { RunRecordsLast(Synced(s, requests[0]), requests[1..]); }
  }

  /** An id that is live although no record names it. */
  predicate Orphan(s: Weights, id: int) {
    id in s.live && id !in s.recorded
  }

  /** An orphan outlives a run, with its weight, exactly when no request of the run names it. */
  lemma {:induction false} OrphanSurvivesIff(s: Weights, requests: seq<map<int, int>>, id: int)
    requires Orphan(s, id)
    ensures Orphan(RunSyncs(s, requests), id) <==> id !in NamedIds(requests)
    ensures id !in NamedIds(requests) ==> RunSyncs(s, requests).live[id] == s.live[id]
    decreases |requests|
  {
    if requests != [] {
      if id in requests[0] {
        NoNewOrphan(Synced(s, requests[0]), requests[1..], id);
      } else {
        OrphanSurvivesIff(Synced(s, requests[0]), requests[1..], id);
      }
    }
  }

  lemma {:induction false} NoNewOrphan(s: Weights, requests: seq<map<int, int>>, id: int)
    requires !Orphan(s, id)
    ensures !Orphan(RunSyncs(s, requests), id)
    decreases |requests|
  {
    if requests != [] { NoNewOrphan(Synced(s, requests[0]), requests[1..], id); }
  }

  /**
   After a sync with any faults, a run of complete syncs reaches its last request exactly when every
   id it left live is recorded or named by some request of the run. So it does
   - after a cut during the pushes, exactly when the ids it set were recorded or are named;
   - after pushes that all took effect and a record cut off, exactly when its own ids are in the rest or are named;
   - after failed pushes with a record, exactly when the live ids whose delete failed are named; failed sets do no harm.
   */
  lemma FaultyRunIff(s: Weights, desired: map<int, int>, a: Attempt, requests: seq<map<int, int>>)
    requires s.live.Keys <= s.recorded && Possible(s, desired, a) && requests != []
    ensures var reaches := RunSyncs(Attempted(s, desired, a), requests).live == requests[|requests| - 1];
            && (a.stage.Pushing? ==> (reaches <==> a.sets <= s.recorded + NamedIds(requests)))
            && (a.stage.Recording? && a.sets == desired.Keys && a.deletes == s.recorded - desired.Keys ==>
                  (reaches <==> desired.Keys <= a.stage.written + NamedIds(requests)))
            && (a.stage.Recording? ==>
                  (reaches <==> (s.live.Keys - a.deletes) + a.sets <= a.stage.written + NamedIds(requests)))
            && (a.stage.Recorded? ==>
                  (reaches <==> s.live.Keys * ((s.recorded - desired.Keys) - a.deletes) <= NamedIds(requests)))
  {
    RunReachesIff(Attempted(s, desired, a), requests);
    AttemptedKeys(s, desired, a);
    FailedDeletes(s.live.Keys, s.recorded, desired.Keys, a.sets, a.deletes, NamedIds(requests));
  }

  lemma FailedDeletes(live: set<int>, recorded: set<int>, desired: set<int>, sets: set<int>, deletes: set<int>, named: set<int>)
    requires live <= recorded && sets <= desired && deletes <= recorded - desired
    ensures (live - deletes) + sets <= desired + named <==> live * ((recorded - desired) - deletes) <= named
    ensures (live - deletes) + sets <= recorded + named <==> sets <= recorded + named
    ensures sets == desired && deletes == recorded - desired ==> (live - deletes) + sets == desired
  {
    if live * ((recorded - desired) - deletes) <= named {
      forall id | id in (live - deletes) + sets ensures id in desired + named {
        assert id !in desired ==> id in live * ((recorded - desired) - deletes);
      }
    }
    if (live - deletes) + sets <= desired + named {
      forall id | id in live * ((recorded - desired) - deletes) ensures id in named {
        assert id in (live - deletes) + sets;
      }
    }
  }

  lemma AttemptedKeys(s: Weights, desired: map<int, int>, a: Attempt)
    requires Possible(s, desired, a)
    ensures Attempted(s, desired, a).live.Keys == (s.live.Keys - a.deletes) + a.sets
  {
  }

  function NoRequests(n: nat): seq<map<int, int>> {
    seq(n, _ => map[])
  }

  /** An orphan outlives any number of empty requests. */
  lemma {:induction false} EmptyRequestsKeep(id: int, weight: int, n: nat)
    ensures RunSyncs(Weights(map[id := weight], {}), NoRequests(n)).live == map[id := weight]
  {
    var s := Weights(map[id := weight], {});
    if n > 0 {
      EmptyRequestsKeep(id, weight, n - 1);
      assert NoRequests(n)[1..] == NoRequests(n - 1);
      assert Synced(s, map[]) == s;
    }
  }

  /**
   For instance, each fault leaves id 7 behind for any number of empty requests: a first push of it
   that is interrupted, a repeated one whose record is cut off, and a failed delete of it.
   */
  lemma OrphanedWeight(n: nat)
    ensures var none, seven := Weights(map[], {}), Weights(map[7 := 50], {7});
            && RunSyncs(Attempted(none, map[7 := 50], Attempt({7}, {}, Pushing)), NoRequests(n)).live == map[7 := 50]
            && RunSyncs(Attempted(seven, map[7 := 50], Attempt({7}, {}, Recording({}))), NoRequests(n)).live == map[7 := 50]
            && RunSyncs(Attempted(seven, map[], Attempt({}, {}, Recorded)), NoRequests(n)).live == map[7 := 50]
  {
    var none, seven, left := Weights(map[], {}), Weights(map[7 := 50], {7}), Weights(map[7 := 50], {});
    assert Attempted(none, map[7 := 50], Attempt({7}, {}, Pushing)) == left;
    assert Attempted(seven, map[7 := 50], Attempt({7}, {}, Recording({}))) == left;
    assert Attempted(seven, map[], Attempt({}, {}, Recorded)) == left;
    EmptyRequestsKeep(7, 50, n);
  }
}
