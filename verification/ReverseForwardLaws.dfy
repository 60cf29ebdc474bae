/**
 Laws of reverse forwards over whole runs: the registry refinement, clients
 that outlive their forwards, idempotence and the set-then-remove round trip,
 and the bypass list derived from the configuration.
 */
module ReverseForwardLaws {
  import opened Lists
  import opened Options
  import opened ReverseForwardRuns
  import opened ReverseForwards
  import opened ReverseTags

  datatype Op =
    | SetOp(port: nat, forward: Forward, id: string)
    | RemoveOp(user: string, port: nat)

  datatype State = State(config: Config, registry: Registry)

  /** One request; a port out of range or a rejected set changes nothing. */
  function Step(s: State, op: Op): State {
    match op
    case SetOp(port, f, id) =>
      if InRange(port) && Set(s.config, port, f, id).Some?
      then State(Set(s.config, port, f, id).value, s.registry[port := f]) else s
    case RemoveOp(user, port) =>
      if InRange(port) then State(Remove(s.config, user, port), Unregister(s.registry, user, port)) else s
  }

  function Run(s: State, ops: seq<Op>): State {
    if ops == [] then s else Step(Run(s, ops[..|ops| - 1]), ops[|ops| - 1])
  }

  /** Over every run the configuration represents the registry of accepted forwards. */
  lemma {:induction false} RunRepresents(s: State, ops: seq<Op>)
    requires Represents(s.config, s.registry)
    ensures Represents(Run(s, ops).config, Run(s, ops).registry)
  {
    if ops != [] {
      var before := Run(s, ops[..|ops| - 1]);
      RunRepresents(s, ops[..|ops| - 1]);
      match ops[|ops| - 1]
      case SetOp(port, f, id) =>
        if InRange(port) && Set(before.config, port, f, id).Some? {
          SetRepresents(before.config, before.registry, port, f, id);
        }
      case RemoveOp(user, port) => RemoveRepresents(before.config, before.registry, user, port);
    }
  }

  /** A configuration that uses neither the tags nor the listener port starts a run with an empty registry. */
  lemma FreshRepresents(c: Config)
    requires forall i :: i in c.inbounds ==> Foreign(i) && i.port != Some(LISTENER_PORT)
    requires forall r :: r in c.rules ==> ForeignRule(r)
    ensures Represents(c, map[]) && NoStale(c, map[])
  {
    FilterNothing(c.inbounds, HasTag(LISTENER));
  }

  // ----- The foreign part

  function ForeignPart(c: Config): Config {
    Config(Filter(c.inbounds, Foreign), Filter(c.rules, ForeignRule))
  }

  lemma AdmitCons(first: Inbound, rest: seq<Inbound>, user: string, id: string)
    ensures AdmitClient([first] + rest, user, id) ==
            if IsListener(first) then [Admit(first, user, id)] + rest else [first] + AdmitClient(rest, user, id)
  {
    assert ([first] + rest)[1..] == rest;
  }

  lemma {:induction false} AdmitKeepsForeign(inbounds: seq<Inbound>, user: string, id: string)
    ensures Filter(AdmitClient(inbounds, user, id), Foreign) == Filter(inbounds, Foreign)
  {
    if inbounds != [] && !IsListener(inbounds[0]) {
      AdmitKeepsForeign(inbounds[1..], user, id);
      AdmitCons(inbounds[0], inbounds[1..], user, id);
      assert [inbounds[0]] + inbounds[1..] == inbounds;
    }
  }

  lemma {:induction false} DropKeepsForeign(inbounds: seq<Inbound>, user: string)
    ensures Filter(DropClient(inbounds, user), Foreign) == Filter(inbounds, Foreign)
  {
    if inbounds != [] {
      DropKeepsForeign(inbounds[1..], user);
      if IsListener(inbounds[0]) {
        DroppedNotForeign(inbounds[0], DropClient(inbounds[1..], user), user);
      }
    }
  }

  lemma DroppedNotForeign(l: Inbound, rest: seq<Inbound>, user: string)
    requires IsListener(l)
    ensures Filter(Dropped(l, user) + rest, Foreign) == Filter(rest, Foreign)
  {
    FilterAppend(Dropped(l, user), rest, Foreign);
    FilterNothing(Dropped(l, user), Foreign);
  }

  /** Neither edit touches foreign inbounds or rules, nor their order. */
  lemma EditsKeepForeign(c: Config, port: nat, f: Forward, id: string)
    ensures Set(c, port, f, id).Some? ==> ForeignPart(Set(c, port, f, id).value) == ForeignPart(c)
    ensures ForeignPart(Remove(c, f.user, port)) == ForeignPart(c)
  {
    var tag := PublicTag(f.user, port);
    var mid := AdmitClient(c.inbounds, f.user, id);
    var kept, rules := Filter(mid, OtherTag(tag)), Filter(c.rules, Silent(tag));
    PublicTagInFamily(f.user, port);
    AdmitKeepsForeign(c.inbounds, f.user, id);
    FilterAppend(kept, [PublicInbound(port, f)], Foreign);
    FilterTwice(mid, OtherTag(tag), Foreign, Foreign);
    FilterAppend(rules, [PublicRule(port, f)], ForeignRule);
    FilterTwice(c.rules, Silent(tag), ForeignRule, ForeignRule);
    FilterTwice(c.inbounds, OtherTag(tag), Foreign, Foreign);
    DropKeepsForeign(Filter(c.inbounds, OtherTag(tag)), f.user);
  }

  // ----- Clients that outlive their forwards

  /** Every client of the listener belongs to a user who owns a forward. */
  ghost predicate NoStale(c: Config, reg: Registry) {
    forall l, k :: l in c.inbounds && IsListener(l) && k in l.clients ==> Owns(reg, k.email)
  }

  /** An owner whose name makes its public tags look like the user's. */
  ghost predicate ShadowOwner(reg: Registry, user: string) {
    exists p :: p in reg && Shadows(user, reg[p].user)
  }

  lemma {:induction false} DropClientMembers(inbounds: seq<Inbound>, user: string)
    ensures forall l, k :: l in DropClient(inbounds, user) && IsListener(l) && k in l.clients ==>
              k.email != user && exists m :: m in inbounds && IsListener(m) && k in m.clients
  {
    if inbounds != [] {
      DropClientMembers(inbounds[1..], user);
      var head := Dropped(inbounds[0], user);
      FilterMembers(inbounds[0].clients, OfOthers(user));
      forall l, k | l in DropClient(inbounds, user) && IsListener(l) && k in l.clients
        ensures k.email != user && exists m :: m in inbounds && IsListener(m) && k in m.clients
      {
        if l in DropClient(inbounds[1..], user) {
          var m :| m in inbounds[1..] && IsListener(m) && k in m.clients;
          assert m in inbounds;
        } else {
          assert inbounds[0] in inbounds && k in inbounds[0].clients;
        }
      }
    }
  }

  lemma SetKeepsNoStale(c: Config, reg: Registry, port: nat, f: Forward, id: string)
    requires Represents(c, reg) && NoStale(c, reg) && InRange(port) && Set(c, port, f, id).Some?
    ensures NoStale(Set(c, port, f, id).value, reg[port := f])
  {
    var after, reg' := Set(c, port, f, id).value, reg[port := f];
    var l, before := AdmittedListener(c.inbounds, reg, f.user, id);
    var mid := AdmitClient(c.inbounds, f.user, id);
    FilterMembers(mid, OtherTag(PublicTag(f.user, port)));
    PublicTagInFamily(f.user, port);
    FilterMembers(before, OfOthers(f.user));
    SetRejectedIff(c, reg, port, f, id);
    assert forall m :: m in after.inbounds && IsListener(m) ==> m == l;
    forall k | k in l.clients ensures Owns(reg', k.email) {
      if k != ClientOf(f.user, id) {
        assert k in before && Owns(reg, k.email);
        SetKeepsOwner(reg, port, f, k.email);
      } else {
        assert port in reg' && reg'[port].user == f.user;
      }
    }
  }

  lemma SetKeepsOwner(reg: Registry, port: nat, f: Forward, user: string)
    requires Owns(reg, user) && (port in reg ==> reg[port].user == f.user)
    ensures Owns(reg[port := f], user)
  {
    var p :| p in reg && reg[p].user == user;
    assert p in reg[port := f] && reg[port := f][p].user == user;
  }

  lemma RemoveKeepsOtherOwners(reg: Registry, user: string, port: nat, other: string)
    requires Owns(reg, other) && other != user
    ensures Owns(Unregister(reg, user, port), other)
  {
    var p :| p in reg && reg[p].user == other;
    assert p in Unregister(reg, user, port) && Unregister(reg, user, port)[p].user == other;
  }

  lemma RemoveKeepsNoStale(c: Config, reg: Registry, user: string, port: nat)
    requires Represents(c, reg) && NoStale(c, reg)
    requires Owns(Unregister(reg, user, port), user) || !ShadowOwner(Unregister(reg, user, port), user)
    ensures NoStale(Remove(c, user, port), Unregister(reg, user, port))
  {
    var reg' := Unregister(reg, user, port);
    var inbounds := Filter(c.inbounds, OtherTag(PublicTag(user, port)));
    FilterMembers(c.inbounds, OtherTag(PublicTag(user, port)));
    RemoveInbounds(c.inbounds, reg, user, port);
    HasForwardsIff(inbounds, reg', user);
    DropClientMembers(inbounds, user);
    forall l, k | l in Remove(c, user, port).inbounds && IsListener(l) && k in l.clients ensures Owns(reg', k.email) {
      assert Owns(reg, k.email);
      if k.email != user { RemoveKeepsOtherOwners(reg, user, port, k.email); }
    }
  }

  /**
   When a user removes a forward it owns, no client is left over exactly when the user still owns
   another forward or no remaining owner's name shadows the user's.
   */
  lemma RemoveNoStaleIff(c: Config, reg: Registry, user: string, port: nat)
    requires Represents(c, reg) && NoStale(c, reg) && port in reg && reg[port].user == user
    ensures NoStale(Remove(c, user, port), Unregister(reg, user, port)) <==>
              Owns(Unregister(reg, user, port), user) || !ShadowOwner(Unregister(reg, user, port), user)
  {
    var reg' := Unregister(reg, user, port);
    if Owns(reg', user) || !ShadowOwner(reg', user) {
      RemoveKeepsNoStale(c, reg, user, port);
    } else {
      var inbounds := Filter(c.inbounds, OtherTag(PublicTag(user, port)));
      RemoveInbounds(c.inbounds, reg, user, port);
      HasForwardsIff(inbounds, reg', user);
      var l := TheListener(c, reg, port);
      PublicTagInFamily(user, port);
      FilterMembers(c.inbounds, OtherTag(PublicTag(user, port)));
      var id :| Filter(l.clients, OfUser(user)) == [ClientOf(user, id)];
      FilterMembers(l.clients, OfUser(user));
      assert ClientOf(user, id) in Filter(l.clients, OfUser(user));
      assert l in Remove(c, user, port).inbounds && ClientOf(user, id) in l.clients;
    }
  }

  lemma TheListener(c: Config, reg: Registry, port: nat) returns (l: Inbound)
    requires Represents(c, reg) && port in reg
    ensures l in c.inbounds && IsListener(l) && AdmitsOnce(l, reg[port].user)
  {
    FilterMembers(c.inbounds, HasTag(LISTENER));
    l := Filter(c.inbounds, HasTag(LISTENER))[0];
  }

  /** No name of the set shadows another. */
  ghost predicate Unshadowed(names: set<string>) {
    forall u, v :: u in names && v in names ==> !Shadows(u, v)
  }

  ghost predicate Named(op: Op, names: set<string>) {
    match op
    case SetOp(_, f, _) => f.user in names
    case RemoveOp(user, _) => user in names
  }

  /** Over runs by users whose names do not shadow one another, no client outlives its forwards. */
  lemma {:induction false} RunNoStale(s: State, ops: seq<Op>, names: set<string>)
    requires Represents(s.config, s.registry) && NoStale(s.config, s.registry) && Unshadowed(names)
    requires forall p :: p in s.registry ==> s.registry[p].user in names
    requires forall k :: 0 <= k < |ops| ==> Named(ops[k], names)
    ensures NoStale(Run(s, ops).config, Run(s, ops).registry)
    ensures forall p :: p in Run(s, ops).registry ==> Run(s, ops).registry[p].user in names
  {
    if ops != [] {
      var before := Run(s, ops[..|ops| - 1]);
      RunNoStale(s, ops[..|ops| - 1], names);
      RunRepresents(s, ops[..|ops| - 1]);
      assert Named(ops[|ops| - 1], names);
      match ops[|ops| - 1]
      case SetOp(port, f, id) =>
        if InRange(port) && Set(before.config, port, f, id).Some? {
          SetKeepsNoStale(before.config, before.registry, port, f, id);
        }
      case RemoveOp(user, port) =>
        if InRange(port) { RemoveKeepsNoStale(before.config, before.registry, user, port); }
    }
  }

  // ----- Reaching a stale client

  /** The first user opens a port, a second one another, and the first closes its own. */
  function StaleRun(u: string, v: string, p: nat, q: nat, id: string): seq<Op> {
    [SetOp(p, Forward(u, "192.168.1.2", 80), id), SetOp(q, Forward(v, "192.168.2.2", 80), id), RemoveOp(u, p)]
  }

  lemma RunThree(s: State, a: Op, b: Op, c: Op)
    ensures Run(s, [a, b, c]) == Step(Step(Step(s, a), b), c)
  {
    assert [a, b, c][..2] == [a, b] && [a, b][..1] == [a] && [a][..0] == [];
    assert Run(s, []) == s;
    assert Run(s, [a]) == Step(s, a);
    assert Run(s, [a, b]) == Step(Step(s, a), b);
  }

  /** A set on a free port, and what it leaves free. */
  lemma SetAccepted(s: State, p: nat, f: Forward, id: string)
    requires Represents(s.config, s.registry) && NoStale(s.config, s.registry) && InRange(p)
    requires p !in s.registry && !ForeignOn(s.config.inbounds, p)
    ensures var after := Step(s, SetOp(p, f, id));
            && after == State(Set(s.config, p, f, id).value, s.registry[p := f])
            && Represents(after.config, after.registry) && NoStale(after.config, after.registry)
  {
    SetRejectedIff(s.config, s.registry, p, f, id);
    SetRepresents(s.config, s.registry, p, f, id);
    SetKeepsNoStale(s.config, s.registry, p, f, id);
  }

  lemma ForeignOnFiltered(inbounds: seq<Inbound>, q: int)
    ensures ForeignOn(inbounds, q) <==> ForeignOn(Filter(inbounds, Foreign), q)
  {
    FilterMembers(inbounds, Foreign);
  }

  lemma StillNotForeign(c: Config, p: nat, f: Forward, id: string, q: nat)
    requires Set(c, p, f, id).Some?
    ensures ForeignOn(Set(c, p, f, id).value.inbounds, q) <==> ForeignOn(c.inbounds, q)
  {
    EditsKeepForeign(c, p, f, id);
    assert ForeignPart(Set(c, p, f, id).value).inbounds == ForeignPart(c).inbounds;
    ForeignOnFiltered(c.inbounds, q);
    ForeignOnFiltered(Set(c, p, f, id).value.inbounds, q);
  }

  lemma ShadowsLonger(u: string, v: string)
    requires Shadows(u, v)
    ensures u != v
  {
    assert |v + "-"| >= |u + TCP|;
  }

  /** Whenever one name shadows another and two ports are free, three requests leave a stale client. */
  lemma ShadowingLeavesStale(c: Config, u: string, v: string, p: nat, q: nat, id: string)
    requires Represents(c, map[]) && NoStale(c, map[]) && Shadows(u, v)
    requires InRange(p) && InRange(q) && p != q && !ForeignOn(c.inbounds, p) && !ForeignOn(c.inbounds, q)
    ensures var after := Run(State(c, map[]), StaleRun(u, v, p, q, id));
            !NoStale(after.config, after.registry)
  {
    var f, g := Forward(u, "192.168.1.2", 80), Forward(v, "192.168.2.2", 80);
    var a, b := SetOp(p, f, id), SetOp(q, g, id);
    TwoSets(c, p, f, q, g, id);
    ShadowsLonger(u, v);
    LastRemoveLeavesStale(Step(Step(State(c, map[]), a), b), u, v, p, q);
    RunThree(State(c, map[]), a, b, RemoveOp(u, p));
  }

  lemma TwoSets(c: Config, p: nat, f: Forward, q: nat, g: Forward, id: string)
    requires Represents(c, map[]) && NoStale(c, map[])
    requires InRange(p) && InRange(q) && p != q && !ForeignOn(c.inbounds, p) && !ForeignOn(c.inbounds, q)
    ensures var s := Step(Step(State(c, map[]), SetOp(p, f, id)), SetOp(q, g, id));
            && Represents(s.config, s.registry) && NoStale(s.config, s.registry)
            && s.registry.Keys == {p, q} && s.registry[p] == f && s.registry[q] == g
  {
    FirstOfTwo(c, p, f, q, id);
    SetAccepted(Step(State(c, map[]), SetOp(p, f, id)), q, g, id);
  }

  lemma FirstOfTwo(c: Config, p: nat, f: Forward, q: nat, id: string)
    requires Represents(c, map[]) && NoStale(c, map[])
    requires InRange(p) && !ForeignOn(c.inbounds, p) && !ForeignOn(c.inbounds, q)
    ensures var s := Step(State(c, map[]), SetOp(p, f, id));
            && Represents(s.config, s.registry) && NoStale(s.config, s.registry)
            && s.registry == map[p := f] && !ForeignOn(s.config.inbounds, q)
  {
    SetAccepted(State(c, map[]), p, f, id);
    StillNotForeign(c, p, f, id, q);
  }

  lemma LastRemoveLeavesStale(s: State, u: string, v: string, p: nat, q: nat)
    requires Represents(s.config, s.registry) && NoStale(s.config, s.registry) && InRange(p) && Shadows(u, v) && u != v && p != q
    requires s.registry.Keys == {p, q} && s.registry[p].user == u && s.registry[q].user == v
    ensures var after := Step(s, RemoveOp(u, p)); !NoStale(after.config, after.registry)
  {
    var reg := Unregister(s.registry, u, p);
    assert q in reg && reg[q].user == v;
    assert !Owns(reg, u) && ShadowOwner(reg, u);
    RemoveNoStaleIff(s.config, s.registry, u, p);
  }

  const EMPTY := State(Config([], []), map[])

  /** Runs by a set of users never leave a stale client exactly when no name of the set shadows another. */
  lemma NoStaleIff(names: set<string>)
    ensures Unshadowed(names) <==>
            forall ops :: (forall k :: 0 <= k < |ops| ==> Named(ops[k], names)) ==>
                            NoStale(Run(EMPTY, ops).config, Run(EMPTY, ops).registry)
  {
    FreshRepresents(EMPTY.config);
    if Unshadowed(names) {
      forall ops: seq<Op> | forall k :: 0 <= k < |ops| ==> Named(ops[k], names)
        ensures NoStale(Run(EMPTY, ops).config, Run(EMPTY, ops).registry)
      {
        RunNoStale(EMPTY, ops, names);
      }
    } else {
      var u, v :| u in names && v in names && Shadows(u, v);
      ShadowingLeavesStale(EMPTY.config, u, v, 80, 443, "");
      var ops := StaleRun(u, v, 80, 443, "");
      assert forall k :: 0 <= k < |ops| ==> Named(ops[k], names);
    }
  }

  lemma NamesShadow()
    ensures Shadows("a", "a-tcp")
  {
    assert "a-tcp" + "-" == "a" + TCP;
  }

  /** For instance users "a" and "a-tcp": from an empty configuration a client of "a" outlives its forward. */
  lemma StaleInstance()
    ensures var after := Run(EMPTY, StaleRun("a", "a-tcp", 80, 443, "id"));
            !NoStale(after.config, after.registry)
  {
    NamesShadow();
    FreshRepresents(EMPTY.config);
    ShadowingLeavesStale(EMPTY.config, "a", "a-tcp", 80, 443, "id");
  }

  // ----- Idempotence and round trip

  /** The first listener is normalised and has the user's client last. */
  ghost predicate FirstAdmits(inbounds: seq<Inbound>, user: string, id: string) {
    inbounds != [] &&
    if IsListener(inbounds[0]) then Admit(inbounds[0], user, id) == inbounds[0] else FirstAdmits(inbounds[1..], user, id)
  }

  lemma AdmitTwice(l: Inbound, user: string, id: string)
    ensures Admit(Admit(l, user, id), user, id) == Admit(l, user, id)
  {
    var kept := Filter(l.clients, OfOthers(user));
    FilterAppend(kept, [ClientOf(user, id)], OfOthers(user));
    FilterMembers(l.clients, OfOthers(user));
    FilterIdentity(kept, OfOthers(user));
  }

  lemma {:induction false} AdmitClientAdmits(inbounds: seq<Inbound>, user: string, id: string)
    ensures FirstAdmits(AdmitClient(inbounds, user, id), user, id)
  {
    if inbounds == [] {
      AdmitTwice(FRESH_LISTENER, user, id);
    } else if IsListener(inbounds[0]) {
      AdmitTwice(inbounds[0], user, id);
    } else {
      AdmitClientAdmits(inbounds[1..], user, id);
    }
  }

  lemma {:induction false} AdmitsAlready(inbounds: seq<Inbound>, tail: seq<Inbound>, user: string, id: string, tag: string)
    requires FirstAdmits(inbounds, user, id) && tag != LISTENER
    ensures AdmitClient(Filter(inbounds, OtherTag(tag)) + tail, user, id) == Filter(inbounds, OtherTag(tag)) + tail
  {
    var first, rest := inbounds[0], Filter(inbounds[1..], OtherTag(tag));
    if !IsListener(first) { AdmitsAlready(inbounds[1..], tail, user, id, tag); }
    if first.tag != tag {
      assert [first] + rest + tail == [first] + (rest + tail);
      AdmitCons(first, rest + tail, user, id);
    }
  }

  lemma StillFree(c: Config, port: nat, f: Forward, id: string)
    requires InRange(port) && Set(c, port, f, id).Some?
    ensures !PortTaken(Set(c, port, f, id).value, PublicTag(f.user, port), port)
  {
    var tag, after := PublicTag(f.user, port), Set(c, port, f, id).value;
    var mid := AdmitClient(c.inbounds, f.user, id);
    FilterMembers(mid, OtherTag(tag));
    forall i | i in after.inbounds && i.port == Some(port) ensures i.tag == tag {
      if i in mid {
        AdmittedPorts(c.inbounds, f.user, id, i);
        NotTaken(c, tag, port, i);
      }
    }
  }

  /** Repeating an accepted set changes nothing, whatever the configuration. */
  lemma SetIdempotent(c: Config, port: nat, f: Forward, id: string)
    requires InRange(port) && Set(c, port, f, id).Some?
    ensures Set(Set(c, port, f, id).value, port, f, id) == Set(c, port, f, id)
  {
    var tag, pub, last := PublicTag(f.user, port), PublicInbound(port, f), PublicRule(port, f);
    var mid, after := AdmitClient(c.inbounds, f.user, id), Set(c, port, f, id).value;
    var kept, rules := Filter(mid, OtherTag(tag)), Filter(c.rules, Silent(tag));
    PublicTagInFamily(f.user, port);
    StillFree(c, port, f, id);
    AdmitClientAdmits(c.inbounds, f.user, id);
    AdmitsAlready(mid, [pub], f.user, id, tag);
    FilterMembers(mid, OtherTag(tag));
    FilterMembers(c.rules, Silent(tag));
    FilterOnly(kept, pub, OtherTag(tag));
    FilterOnly(rules, last, Silent(tag));
  }

  lemma FilterOnly<T>(s: seq<T>, last: T, keep: T -> bool)
    requires !keep(last) && forall x :: x in s ==> keep(x)
    ensures Filter(s + [last], keep) == s
  {
    FilterAppend(s, [last], keep);
    FilterIdentity(s, keep);
    FilterNothing([last], keep);
  }

  lemma {:induction false} AdmittedPorts(inbounds: seq<Inbound>, user: string, id: string, i: Inbound)
    requires i in AdmitClient(inbounds, user, id) && i.port != Some(LISTENER_PORT)
    ensures i in inbounds
  {
    if inbounds != [] && !IsListener(inbounds[0]) && i != inbounds[0] { AdmittedPorts(inbounds[1..], user, id, i); }
  }

  /** The listeners are normalised, have clients, and none of them is the user's. */
  ghost predicate NoClientOf(inbounds: seq<Inbound>, user: string) {
    forall l :: l in inbounds && IsListener(l) ==> Normalised(l) && forall k :: k in l.clients ==> k.email != user
  }

  lemma {:induction false} DropNothing(inbounds: seq<Inbound>, user: string)
    requires NoClientOf(inbounds, user)
    ensures DropClient(inbounds, user) == inbounds
  {
    if inbounds != [] {
      assert inbounds[0] in inbounds && forall l :: l in inbounds[1..] ==> l in inbounds;
      DropNothing(inbounds[1..], user);
      if IsListener(inbounds[0]) { FilterIdentity(inbounds[0].clients, OfOthers(user)); }
    }
  }

  lemma DropFromAdmitted(l: Inbound, user: string, id: string)
    requires forall k :: k in l.clients ==> k.email != user
    ensures Filter(Admit(l, user, id).clients, OfOthers(user)) == l.clients
  {
    FilterIdentity(l.clients, OfOthers(user));
    FilterOnly(l.clients, ClientOf(user, id), OfOthers(user));
  }

  /** Dropping a client that was just admitted. */
  lemma {:induction false} DropAdmitted(inbounds: seq<Inbound>, user: string, id: string)
    requires NoClientOf(inbounds, user)
    ensures DropClient(AdmitClient(inbounds, user, id), user) == inbounds
  {
    if inbounds == [] {
      DropFromAdmitted(FRESH_LISTENER, user, id);
    } else {
      var l, rest := inbounds[0], inbounds[1..];
      assert l in inbounds && forall m :: m in rest ==> m in inbounds;
      if IsListener(l) {
        DropNothing(rest, user);
        DropFromAdmitted(l, user, id);
        assert AdmitClient(inbounds, user, id)[1..] == rest;
      } else {
        DropAdmitted(rest, user, id);
        assert AdmitClient(inbounds, user, id)[1..] == AdmitClient(rest, user, id);
      }
    }
  }

  lemma NotMentioned(c: Config, reg: Registry, user: string, port: nat)
    requires Represents(c, reg) && !Owns(reg, user)
    ensures forall i :: i in c.inbounds ==> i.tag != PublicTag(user, port)
    ensures forall r :: r in c.rules ==> PublicTag(user, port) !in r.inboundTags
  {
    var tag := PublicTag(user, port);
    PublicTagInFamily(user, port);
    forall i | i in c.inbounds ensures i.tag != tag {
      if i.tag == tag { PublicInboundTag(i, reg, user, port); }
    }
    forall r | r in c.rules ensures tag !in r.inboundTags {
      if tag in r.inboundTags {
        var p :| p in reg && r == PublicRule(p, reg[p]);
        PublicTagInjective(reg[p].user, p, user, port);
      }
    }
  }

  /** The configuration after a first set, and the inbounds the following remove starts from. */
  lemma FirstSet(c: Config, reg: Registry, port: nat, f: Forward, id: string)
    requires Represents(c, reg) && !Owns(reg, f.user) && InRange(port) && Set(c, port, f, id).Some?
    ensures var tag, mid := PublicTag(f.user, port), AdmitClient(c.inbounds, f.user, id);
            && Set(c, port, f, id).value == Config(mid + [PublicInbound(port, f)], c.rules + [PublicRule(port, f)])
            && Filter(mid + [PublicInbound(port, f)], OtherTag(tag)) == mid
            && Filter(c.rules + [PublicRule(port, f)], Silent(tag)) == c.rules
  {
    var tag, mid := PublicTag(f.user, port), AdmitClient(c.inbounds, f.user, id);
    PublicTagInFamily(f.user, port);
    NotMentioned(c, reg, f.user, port);
    AdmitClientEffect(c.inbounds, f.user, id);
    FilterIdentity(mid, OtherTag(tag));
    FilterIdentity(c.rules, Silent(tag));
    FilterAppend(mid, [PublicInbound(port, f)], OtherTag(tag));
    FilterAppend(c.rules, [PublicRule(port, f)], Silent(tag));
  }

  /** A port set by a user without forwards was free. */
  lemma FirstPortIsFree(c: Config, reg: Registry, port: nat, f: Forward, id: string)
    requires Represents(c, reg) && !Owns(reg, f.user) && InRange(port) && Set(c, port, f, id).Some?
    ensures port !in reg && Unregister(reg[port := f], f.user, port) == reg
  {
    SetRejectedIff(c, reg, port, f, id);
    assert reg[port := f] - {port} == reg - {port};
  }

  /** Admitting a client leaves the inbounds of the registry as they were. */
  lemma AdmittedMatch(c: Config, reg: Registry, port: nat, f: Forward, id: string)
    requires Represents(c, reg) && !Owns(reg, f.user) && InRange(port) && Set(c, port, f, id).Some?
    ensures InboundsMatch(AdmitClient(c.inbounds, f.user, id), reg)
  {
    FirstPortIsFree(c, reg, port, f, id);
    FirstSet(c, reg, port, f, id);
    SetInbounds(c, reg, port, f, id);
    RemoveInbounds(Set(c, port, f, id).value.inbounds, reg[port := f], f.user, port);
  }

  /** Without its own forward, only a shadowing owner makes the user look like an owner. */
  lemma AdmittedForwards(c: Config, reg: Registry, port: nat, f: Forward, id: string)
    requires Represents(c, reg) && !Owns(reg, f.user) && InRange(port) && Set(c, port, f, id).Some?
    ensures HasForwards(AdmitClient(c.inbounds, f.user, id), f.user) <==> ShadowOwner(reg, f.user)
  {
    AdmittedMatch(c, reg, port, f, id);
    HasForwardsIff(AdmitClient(c.inbounds, f.user, id), reg, f.user);
  }

  /** The remove after a first set: only the client of the user may be left over. */
  lemma FirstRemove(c: Config, reg: Registry, port: nat, f: Forward, id: string)
    requires Represents(c, reg) && !Owns(reg, f.user) && InRange(port) && Set(c, port, f, id).Some?
    ensures var mid := AdmitClient(c.inbounds, f.user, id);
            Remove(Set(c, port, f, id).value, f.user, port) ==
            Config(if ShadowOwner(reg, f.user) then mid else DropClient(mid, f.user), c.rules)
  {
    var mid := AdmitClient(c.inbounds, f.user, id);
    FirstSet(c, reg, port, f, id);
    AdmittedForwards(c, reg, port, f, id);
    RemoveOf(Set(c, port, f, id).value, f.user, port, mid, c.rules);
  }

  lemma RemoveOf(c: Config, user: string, port: nat, inbounds: seq<Inbound>, rules: seq<Rule>)
    requires Filter(c.inbounds, OtherTag(PublicTag(user, port))) == inbounds
    requires Filter(c.rules, Silent(PublicTag(user, port))) == rules
    ensures Remove(c, user, port) ==
            Config(if HasForwards(inbounds, user) then inbounds else DropClient(inbounds, user), rules)
  {
  }

  lemma AdmittedDiffers(c: Config, reg: Registry, user: string, id: string)
    requires Represents(c, reg) && NoStale(c, reg) && !Owns(reg, user)
    ensures AdmitClient(c.inbounds, user, id) != c.inbounds
  {
    var mid := AdmitClient(c.inbounds, user, id);
    var l, before := AdmittedListener(c.inbounds, reg, user, id);
    FilterMembers(mid, HasTag(LISTENER));
    assert l in Filter(mid, HasTag(LISTENER)) && ClientOf(user, id) in l.clients;
    assert mid == c.inbounds ==> Owns(reg, ClientOf(user, id).email);
  }

  /**
   Round trip: for a user without forwards, an accepted set followed by the remove restores the
   configuration exactly when no owner's name shadows the user's.
   */
  lemma SetThenRemoveIff(c: Config, reg: Registry, port: nat, f: Forward, id: string)
    requires Represents(c, reg) && NoStale(c, reg) && !Owns(reg, f.user) && InRange(port) && Set(c, port, f, id).Some?
    ensures Remove(Set(c, port, f, id).value, f.user, port) == c <==> !ShadowOwner(reg, f.user)
  {
    FirstRemove(c, reg, port, f, id);
    if ShadowOwner(reg, f.user) {
      AdmittedDiffers(c, reg, f.user, id);
    } else {
      assert NoClientOf(c.inbounds, f.user);
      DropAdmitted(c.inbounds, f.user, id);
    }
  }

  /** For instance, while "a-tcp" owns a forward, set and remove by "a" do not restore the configuration. */
  lemma RoundTripInstance()
    ensures var g, f := Forward("a-tcp", "192.168.2.2", 80), Forward("a", "192.168.1.2", 80);
            var c := Step(EMPTY, SetOp(443, g, "id")).config;
            Set(c, 80, f, "id").Some? && Remove(Set(c, 80, f, "id").value, "a", 80) != c
  {
    NamesShadow();
    ShadowsLonger("a", "a-tcp");
    FreshRepresents(EMPTY.config);
    RoundTripFails(Forward("a", "192.168.1.2", 80), Forward("a-tcp", "192.168.2.2", 80), "id");
  }

  lemma RoundTripFails(f: Forward, g: Forward, id: string)
    requires Shadows(f.user, g.user) && f.user != g.user
    ensures var c := Step(EMPTY, SetOp(443, g, id)).config;
            Set(c, 80, f, id).Some? && Remove(Set(c, 80, f, id).value, f.user, 80) != c
  {
    FreshRepresents(EMPTY.config);
    SetAccepted(EMPTY, 443, g, id);
    StillNotForeign(EMPTY.config, 443, g, id, 80);
    FailsInState(Step(EMPTY, SetOp(443, g, id)), 80, f, 443, id);
  }

  lemma FailsInState(s: State, p: nat, f: Forward, q: nat, id: string)
    requires Represents(s.config, s.registry) && NoStale(s.config, s.registry) && InRange(p)
    requires s.registry.Keys == {q} && p != q && !ForeignOn(s.config.inbounds, p)
    requires Shadows(f.user, s.registry[q].user) && f.user != s.registry[q].user
    ensures Set(s.config, p, f, id).Some? && Remove(Set(s.config, p, f, id).value, f.user, p) != s.config
  {
    assert q in s.registry && ShadowOwner(s.registry, f.user) && !Owns(s.registry, f.user);
    SetRejectedIff(s.config, s.registry, p, f, id);
    SetThenRemoveIff(s.config, s.registry, p, f, id);
  }

  // ----- The bypass list

  /** Public ports the bypass chain accepts, before sorting. */
  predicate Bypassed(i: Inbound) {
    InFamily(i.tag) && !IsListener(i) && i.protocol == "tunnel" && i.port.Some? && 1 <= i.port.value <= 64999
  }

  function BypassPorts(c: Config): set<int> {
    set k | 0 <= k < |c.inbounds| && Bypassed(c.inbounds[k]) :: c.inbounds[k].port.value
  }

  /** The members of a set of ports from lo on, in ascending order. */
  function Sorted(ports: set<int>, lo: int): seq<int>
    decreases 65000 - lo
  {
    if lo >= 65000 then [] else if lo in ports then [lo] + Sorted(ports, lo + 1) else Sorted(ports, lo + 1)
  }

  /** The rendered bypass chain: one accepted port per rule. */
  function Bypass(c: Config): seq<int> {
    Sorted(BypassPorts(c), 1)
  }

  ghost predicate Ascending(s: seq<int>) {
    s != [] ==> (forall p :: p in s[1..] ==> s[0] < p) && Ascending(s[1..])
  }

  lemma {:induction false} SortedMembers(ports: set<int>, lo: int, p: int)
    ensures p in Sorted(ports, lo) <==> p in ports && lo <= p < 65000
    decreases 65000 - lo
  {
    if lo < 65000 { SortedMembers(ports, lo + 1, p); }
  }

  lemma {:induction false} SortedAscending(ports: set<int>, lo: int)
    ensures Ascending(Sorted(ports, lo))
    decreases 65000 - lo
  {
    if lo < 65000 {
      SortedAscending(ports, lo + 1);
      var rest := Sorted(ports, lo + 1);
      forall p | p in rest ensures lo < p { SortedMembers(ports, lo + 1, p); }
      if lo in ports { assert ([lo] + rest)[1..] == rest; }
    }
  }

  lemma BypassPortIff(c: Config, reg: Registry, p: nat)
    requires Represents(c, reg)
    ensures p in BypassPorts(c) <==> p in reg
  {
    if p in BypassPorts(c) {
      var k :| 0 <= k < |c.inbounds| && Bypassed(c.inbounds[k]) && c.inbounds[k].port.value == p;
      assert c.inbounds[k] in c.inbounds;
      var q :| q in reg && c.inbounds[k] == PublicInbound(q, reg[q]);
    }
    if p in reg {
      var i := PublicInbound(p, reg[p]);
      PublicTagInFamily(reg[p].user, p);
      FilterMembers(c.inbounds, HasTag(i.tag));
      assert i in Filter(c.inbounds, HasTag(i.tag));
      var k :| 0 <= k < |c.inbounds| && c.inbounds[k] == i;
      assert Bypassed(c.inbounds[k]) && c.inbounds[k].port.value == p;
    }
  }

  /** The bypass list is exactly the owned ports, in strictly ascending order. */
  lemma BypassIsOwnedPorts(c: Config, reg: Registry)
    requires Represents(c, reg)
    ensures Ascending(Bypass(c))
    ensures forall p: nat :: p in Bypass(c) <==> p in reg
  {
    SortedAscending(BypassPorts(c), 1);
    forall p: nat ensures p in Bypass(c) <==> p in reg {
      BypassPortIff(c, reg, p);
      SortedMembers(BypassPorts(c), 1, p);
    }
  }
}
