/**
 The XRay server file behind the reverse forwards: a candidate is validated
 before it replaces the file, and the file is put back when XRay does not
 restart. Serialisation and the verdict of the XRay self-test are parameters;
 every other outcome (failing writes, restarts, nft runs) is left open.
 */
module ReverseForwardFile {
  import opened Options
  import opened ReverseForwardLaws
  import opened ReverseForwardRuns
  import opened ReverseForwards
  import opened ReverseTags

  datatype Result = Done | NoChange | Error | Raised

  /**
   How the environment behaved: whether a needed restore wrote the file back, whether the restart
   call after the replacement returned at all, and whether a needed nft run succeeded.
   */
  datatype Conduct = Conduct(restored: bool, returned: bool, synced: bool)

  const ORDERLY := Conduct(true, true, true)

  class Host {
    const dumps: Config -> string
    const loads: string -> Config
    const accepts: string -> bool

    var file: string
    var bypass: seq<int>
    ghost var registry: Registry

    /** Reading back what was written gives the same configuration. */
    ghost predicate Codec() {
      forall c :: loads(dumps(c)) == c
    }

    /** The file represents the registry. */
    ghost predicate FileValid()
      reads this
    {
      Codec() && Represents(loads(file), registry)
    }

    /** And the live bypass chain is rendered from the file. */
    ghost predicate Valid()
      reads this
    {
      FileValid() && bypass == Bypass(loads(file))
    }

    /** A server whose configuration uses neither the tags nor the listener port, with its bypass chain rendered. */
    constructor (dumps: Config -> string, loads: string -> Config, accepts: string -> bool, c: Config)
      requires forall d :: loads(dumps(d)) == d
      requires forall i :: i in c.inbounds ==> Foreign(i) && i.port != Some(LISTENER_PORT)
      requires forall r :: r in c.rules ==> ForeignRule(r)
      ensures Valid() && registry == map[] && loads(file) == c
      ensures this.dumps == dumps && this.loads == loads && this.accepts == accepts
    {
      this.dumps, this.loads, this.accepts := dumps, loads, accepts;
      file, bypass, registry := dumps(c), Bypass(c), map[];
      FreshRepresents(c);
    }

    /**
     Validate the candidate, replace the file, restart; put the old file back when the restart
     reports failure. A restart call that raises instead leaves the candidate in place.
     */
    method Write(data: Config, before: string) returns (r: Result, ghost conduct: Conduct)
      requires file == before
      modifies this`file, this`bypass
      ensures r == NoChange <==> dumps(data) == before
      ensures r == NoChange ==> file == before && bypass == old(bypass)
      ensures r == Done ==> file == dumps(data) && accepts(file) && (conduct.synced ==> bypass == Bypass(data))
      ensures r == Error || r == Raised ==> bypass == old(bypass)
      ensures r == Error ==> file == before
      ensures r == Raised && conduct.returned && conduct.restored ==> file == before
      ensures !conduct.returned ==> r == Raised && file == dumps(data) && accepts(file) && conduct.restored
      ensures !conduct.restored ==> r == Raised
      ensures !accepts(dumps(data)) ==> r != Done && file == before && conduct == ORDERLY
    {
      conduct := ORDERLY;
      var candidate := dumps(data);
      if candidate == before {
        return NoChange, conduct;
      }
      var tested: bool := *;                // the temporary file was written and the self-test ran
      if !tested {
        return Raised, conduct;
      }
      if !accepts(candidate) {
        return Error, conduct;
      }
      var replaced: bool := *;
      if !replaced {
        return Raised, conduct;
      }
      file := candidate;
      var returned: bool := *;
      if !returned {
        return Raised, conduct.(returned := false);
      }
      var restarted: bool := *;
      if !restarted {
        var restored: bool := *;
        if !restored {
          file := *;
          return Raised, conduct.(restored := false);
        }
        file := before;
        var again: bool := *;               // the second restart call may raise as well
        r := if again then Error else Raised;
        return r, conduct;
      }
      var synced: bool := *;
      if synced {
        bypass := Bypass(data);
      }
      r, conduct := Done, conduct.(synced := synced);
    }

    /** Write an edited configuration that represents `next`, which becomes the registry when it is stored. */
    method Store(edited: Config, ghost next: Registry) returns (r: Result, ghost conduct: Conduct)
      requires FileValid() && Represents(edited, next)
      modifies this
      ensures conduct.restored ==> FileValid()
      ensures conduct == ORDERLY ==> (Valid() <==> old(Valid()) || r == Done)
      ensures r != Done ==> bypass == old(bypass)
      ensures !conduct.returned || !conduct.restored ==> r == Raised
      ensures r == NoChange <==> dumps(edited) == old(file)
      ensures r == NoChange ==> file == old(file)
      ensures r == Done || !conduct.returned ==> file == dumps(edited)
      ensures var stored := r == Done || r == NoChange || !conduct.returned;
              && registry == (if stored then next else old(registry))
              && (stored ==> loads(file) == edited)
              && (!stored && conduct.restored ==> file == old(file))
    {
      r, conduct := Write(edited, file);
      if file == dumps(edited) {
        assert loads(dumps(edited)) == edited;
      }
      registry := if r == Done || r == NoChange || !conduct.returned then next else registry;
    }

    /** The request to add a forward is accepted. */
    predicate Admissible(port: nat, f: Forward, uuid: Option<string>)
      reads this`file
    {
      && 1 <= port <= 64999 && 1 <= f.destPort <= 65535 && uuid.Some?
      && Set(loads(file), port, f, uuid.value).Some?
    }

    /** And the file is already what the request would write. */
    predicate Settled(port: nat, f: Forward, uuid: Option<string>)
      reads this`file
    {
      Admissible(port, f, uuid) && dumps(Set(loads(file), port, f, uuid.value).value) == file
    }

    /**
     Add or retarget a forward; the user's XRay credential may be missing. The forward is stored
     on success, and also when the restart call raises, which leaves only the bypass chain behind:
     it is then wrong exactly when the port had no forward before, and the request is settled.
     */
    method AddPort(port: nat, f: Forward, uuid: Option<string>) returns (r: Result, ghost conduct: Conduct)
      requires FileValid()
      modifies this
      ensures conduct.restored ==> FileValid()
      ensures conduct == ORDERLY ==> (Valid() <==> old(Valid()) || r == Done)
      ensures r != Done ==> bypass == old(bypass)
      ensures !conduct.returned || !conduct.restored ==> r == Raised
      ensures r == NoChange <==> old(Settled(port, f, uuid))
      ensures r == NoChange ==> file == old(file)
      ensures r == Done || !conduct.returned ==> Settled(port, f, uuid)
      ensures !conduct.returned && old(Valid()) ==> (Valid() <==> port in old(registry))
      ensures var stored := r == Done || r == NoChange || !conduct.returned;
              && registry == (if stored then old(registry)[port := f] else old(registry))
              && (stored ==> uuid.Some? && 1 <= port <= 64999 && Some(loads(file)) == Set(loads(old(file)), port, f, uuid.value))
              && (!stored && conduct.restored ==> file == old(file))
      ensures !old(Admissible(port, f, uuid)) ==> r == Error && file == old(file)
    {
      conduct := ORDERLY;
      if !InRange(port) || !(1 <= f.destPort <= 65535) {
        return Error, conduct;
      }
      var data := loads(file);
      if uuid.None? {
        return Error, conduct;
      }
      var edited := Set(data, port, f, uuid.value);
      if edited.None? {
        return Error, conduct;
      }
      AcceptedSet(data, registry, port, f, uuid.value);
      r, conduct := Store(edited.value, registry[port := f]);
    }

    /**
     Remove a forward; nothing is written when the user does not own it. A restart call that raises
     leaves the bypass chain with a port too many.
     */
    method DelPort(user: string, port: nat) returns (r: Result, ghost conduct: Conduct)
      requires FileValid()
      modifies this
      ensures conduct.restored ==> FileValid()
      ensures conduct == ORDERLY ==> (Valid() <==> old(Valid()) || r == Done)
      ensures r != Done ==> bypass == old(bypass)
      ensures !conduct.returned || !conduct.restored ==> r == Raised
      ensures r == NoChange ==> file == old(file)
      ensures !conduct.returned ==> 1 <= port <= 64999 && (old(Valid()) ==> !Valid())
      ensures var removed := r == Done || !conduct.returned;
              && registry == (if removed then Unregister(old(registry), user, port) else old(registry))
              && (removed ==> port in old(registry) && old(registry)[port].user == user
                              && loads(file) == Remove(loads(old(file)), user, port))
              && (!removed && conduct.restored ==> file == old(file))
      ensures !(1 <= port <= 64999) ==> r == Error
      ensures 1 <= port <= 64999 && !(port in old(registry) && old(registry)[port].user == user) ==> r == NoChange
    {
      conduct := ORDERLY;
      if !InRange(port) {
        return Error, conduct;
      }
      var data := loads(file);
      OwnRemove(data, registry, user, port);
      if !Present(data, PublicTag(user, port)) {
        return NoChange, conduct;
      }
      r, conduct := Store(Remove(data, user, port), Unregister(registry, user, port));
    }

    /** Repeating a settled request, any number of times: nothing is written and no bypass chain repaired. */
    method RepeatAdd(port: nat, f: Forward, uuid: Option<string>, times: nat) returns (again: seq<Result>)
      requires FileValid() && Settled(port, f, uuid)
      modifies this
      ensures |again| == times && forall k :: 0 <= k < times ==> again[k] == NoChange
      ensures file == old(file) && bypass == old(bypass) && (Valid() <==> old(Valid()))
    {
      again := [];
      for i := 0 to times
        invariant |again| == i && forall k :: 0 <= k < i ==> again[k] == NoChange
        invariant FileValid() && file == old(file) && bypass == old(bypass)
      {
        var r, _ := AddPort(port, f, uuid);
        again := again + [r];
      }
    }

    /** Likewise for a removal of what the user does not, or no longer, own. */
    method RepeatDel(user: string, port: nat, times: nat) returns (again: seq<Result>)
      requires FileValid() && 1 <= port <= 64999 && !(port in registry && registry[port].user == user)
      modifies this
      ensures |again| == times && forall k :: 0 <= k < times ==> again[k] == NoChange
      ensures file == old(file) && bypass == old(bypass) && (Valid() <==> old(Valid()))
    {
      again := [];
      for i := 0 to times
        invariant |again| == i && forall k :: 0 <= k < i ==> again[k] == NoChange
        invariant FileValid() && file == old(file) && bypass == old(bypass) && registry == old(registry)
      {
        var r, _ := DelPort(user, port);
        again := again + [r];
      }
    }
  }

  lemma SameBypassSameKeys(c: Config, reg: Registry, d: Config, reg': Registry)
    requires Represents(c, reg) && Represents(d, reg')
    ensures Bypass(c) == Bypass(d) ==> forall p: nat :: p in reg <==> p in reg'
  {
    BypassIsOwnedPorts(c, reg);
    BypassIsOwnedPorts(d, reg');
  }

  lemma SameKeysSameBypass(c: Config, reg: Registry, d: Config, reg': Registry)
    requires Represents(c, reg) && Represents(d, reg') && reg.Keys == reg'.Keys
    ensures Bypass(c) == Bypass(d)
  {
    forall p: int ensures p in BypassPorts(c) <==> p in BypassPorts(d) {
      if p >= 0 {
        BypassPortIff(c, reg, p);
        BypassPortIff(d, reg', p);
      }
    }
    assert BypassPorts(c) == BypassPorts(d);
  }

  /** An accepted set is represented and settled, and changes the bypass list exactly when the port is new. */
  lemma AcceptedSet(c: Config, reg: Registry, port: nat, f: Forward, id: string)
    requires Represents(c, reg) && InRange(port) && Set(c, port, f, id).Some?
    ensures var after := Set(c, port, f, id).value;
            && Represents(after, reg[port := f])
            && Set(after, port, f, id) == Some(after)
            && (Bypass(after) == Bypass(c) <==> port in reg)
  {
    var after := Set(c, port, f, id).value;
    SetRepresents(c, reg, port, f, id);
    SetIdempotent(c, port, f, id);
    if port in reg {
      assert reg[port := f].Keys == reg.Keys;
      SameKeysSameBypass(after, reg[port := f], c, reg);
    }
    SameBypassSameKeys(after, reg[port := f], c, reg);
    assert port in reg[port := f];
  }

  /** A remove of an owned port changes configuration and bypass list; any other finds nothing. */
  lemma OwnRemove(c: Config, reg: Registry, user: string, port: nat)
    requires Represents(c, reg)
    ensures var after, owned := Remove(c, user, port), port in reg && reg[port].user == user;
            && Represents(after, Unregister(reg, user, port))
            && (Present(c, PublicTag(user, port)) <==> owned)
            && (owned ==> after != c && Bypass(after) != Bypass(c))
  {
    RemoveRepresents(c, reg, user, port);
    SameBypassSameKeys(Remove(c, user, port), Unregister(reg, user, port), c, reg);
  }
}
