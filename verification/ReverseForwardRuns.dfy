/**
 Runs of set and remove on the reverse-forward configuration, related to an
 abstract registry: which user owns which public port, and where it leads.
 */
module ReverseForwardRuns {
  import opened Lists
  import opened Options
  import opened ReverseForwards
  import opened ReverseTags
  import opened Text

  type Registry = map<nat, Forward>

  predicate InRange(port: nat) {
    1 <= port <= 64999
  }

  predicate Foreign(i: Inbound) {
    !InFamily(i.tag)
  }

  predicate ForeignRule(r: Rule) {
    forall t | t in r.inboundTags :: !InFamily(t)
  }

  ghost predicate Owns(reg: Registry, user: string) {
    exists p :: p in reg && reg[p].user == user
  }

  ghost predicate IsPublic(i: Inbound, reg: Registry) {
    exists p :: p in reg && i == PublicInbound(p, reg[p])
  }

  /** The listener admits the user through exactly one client, tied to the user's reverse tag. */
  ghost predicate AdmitsOnce(l: Inbound, user: string) {
    exists id :: Filter(l.clients, OfUser(user)) == [ClientOf(user, id)]
  }

  ghost predicate Normalised(l: Inbound) {
    l.tag == LISTENER && l.port == Some(LISTENER_PORT) && l.protocol == "vless" && l.body == TlsListener && l.clients != []
  }

  /** The inbounds hold one public inbound per registered port and at most the one listener besides foreign ones. */
  ghost predicate InboundsMatch(inbounds: seq<Inbound>, reg: Registry) {
    && (forall i :: i in inbounds ==> Foreign(i) || IsListener(i) || IsPublic(i, reg))
    && (forall i, p :: i in inbounds && p in reg && i.port == Some(p) ==> i.tag == PublicTag(reg[p].user, p))
    && (forall p :: p in reg ==> InRange(p) && Filter(inbounds, HasTag(PublicTag(reg[p].user, p))) == [PublicInbound(p, reg[p])])
  }

  ghost predicate ListenerMatches(inbounds: seq<Inbound>, reg: Registry) {
    && |Filter(inbounds, HasTag(LISTENER))| <= 1
    && (forall l :: l in inbounds && IsListener(l) ==> Normalised(l))
    && (forall l, p :: l in inbounds && IsListener(l) && p in reg ==> AdmitsOnce(l, reg[p].user))
    && (reg != map[] ==> |Filter(inbounds, HasTag(LISTENER))| == 1)
    && (forall i :: i in inbounds && i.port == Some(LISTENER_PORT) ==> IsListener(i))
  }

  ghost predicate RulesMatch(rules: seq<Rule>, reg: Registry) {
    && (forall p :: p in reg ==> Filter(rules, Mentions(PublicTag(reg[p].user, p))) == [PublicRule(p, reg[p])])
    && (forall r :: r in rules ==> ForeignRule(r) || exists p :: p in reg && r == PublicRule(p, reg[p]))
  }

  ghost predicate Represents(c: Config, reg: Registry) {
    InboundsMatch(c.inbounds, reg) && ListenerMatches(c.inbounds, reg) && RulesMatch(c.rules, reg)
  }

  // ----- Tags of the registry

  lemma PublicInboundTag(i: Inbound, reg: Registry, user: string, port: nat)
    requires IsPublic(i, reg) && i.tag == PublicTag(user, port)
    ensures port in reg && reg[port].user == user && i == PublicInbound(port, reg[port])
  {
    var p :| p in reg && i == PublicInbound(p, reg[p]);
    PublicTagInjective(reg[p].user, p, user, port);
  }

  /** A tag is present exactly when its user owns its port. */
  lemma PresentIff(c: Config, reg: Registry, user: string, port: nat)
    requires InboundsMatch(c.inbounds, reg)
    ensures Present(c, PublicTag(user, port)) <==> port in reg && reg[port].user == user
  {
    PublicTagInFamily(user, port);
    if Present(c, PublicTag(user, port)) {
      var k :| 0 <= k < |c.inbounds| && c.inbounds[k].tag == PublicTag(user, port);
      assert c.inbounds[k] in c.inbounds;
      PublicInboundTag(c.inbounds[k], reg, user, port);
    }
    if port in reg && reg[port].user == user {
      FilterMembers(c.inbounds, HasTag(PublicTag(user, port)));
      assert PublicInbound(port, reg[port]) in Filter(c.inbounds, HasTag(PublicTag(user, port)));
    }
  }

  // ----- What the listener edits leave alone

  lemma {:induction false} AdmitClientEffect(inbounds: seq<Inbound>, user: string, id: string)
    ensures forall i :: i in inbounds && !IsListener(i) ==> i in AdmitClient(inbounds, user, id)
    ensures forall i :: i in AdmitClient(inbounds, user, id) && !IsListener(i) ==> i in inbounds
    ensures forall t :: t != LISTENER ==> Filter(AdmitClient(inbounds, user, id), HasTag(t)) == Filter(inbounds, HasTag(t))
    ensures var ls := Filter(inbounds, HasTag(LISTENER));
            Filter(AdmitClient(inbounds, user, id), HasTag(LISTENER)) ==
            if ls == [] then [Admit(FRESH_LISTENER, user, id)] else [Admit(ls[0], user, id)] + ls[1..]
  {
    if inbounds != [] && !IsListener(inbounds[0]) {
      AdmitClientEffect(inbounds[1..], user, id);
      var after := AdmitClient(inbounds, user, id);
      assert after[1..] == AdmitClient(inbounds[1..], user, id);
    } else if inbounds != [] {
      assert AdmitClient(inbounds, user, id)[1..] == inbounds[1..];
    }
  }

  /** After admitting a client there is exactly one listener. */
  lemma AdmittedListener(inbounds: seq<Inbound>, reg: Registry, user: string, id: string) returns (l: Inbound, before: seq<Client>)
    requires ListenerMatches(inbounds, reg)
    ensures Filter(AdmitClient(inbounds, user, id), HasTag(LISTENER)) == [l] && Normalised(l)
    ensures forall i :: i in AdmitClient(inbounds, user, id) && IsListener(i) ==> i == l
    ensures l.clients == Filter(before, OfOthers(user)) + [ClientOf(user, id)]
    ensures var ls := Filter(inbounds, HasTag(LISTENER));
            if ls == [] then before == [] && reg == map[]
            else ls[0] in inbounds && IsListener(ls[0]) && before == ls[0].clients
  {
    AdmitClientEffect(inbounds, user, id);
    FilterMembers(inbounds, HasTag(LISTENER));
    var ls := Filter(inbounds, HasTag(LISTENER));
    var first := if ls == [] then FRESH_LISTENER else ls[0];
    l, before := Admit(first, user, id), first.clients;
    FilterMembers(AdmitClient(inbounds, user, id), HasTag(LISTENER));
    forall i | i in AdmitClient(inbounds, user, id) && IsListener(i) ensures i == l {
      assert i in Filter(AdmitClient(inbounds, user, id), HasTag(LISTENER));
    }
  }

  /** Filtering by tag around the replacement of one tag. */
  lemma FilterReplaced(inbounds: seq<Inbound>, tag: string, last: Inbound, t: string)
    requires last.tag == tag
    ensures Filter(Filter(inbounds, OtherTag(tag)) + [last], HasTag(t)) ==
            if t == tag then [last] else Filter(inbounds, HasTag(t))
  {
    var kept := Filter(inbounds, OtherTag(tag));
    FilterAppend(kept, [last], HasTag(t));
    FilterMembers(inbounds, OtherTag(tag));
    if t == tag {
      FilterNothing(kept, HasTag(t));
    } else {
      FilterTwice(inbounds, OtherTag(tag), HasTag(t), HasTag(t));
    }
  }

  lemma FilterRulesReplaced(rules: seq<Rule>, tag: string, last: Rule, t: string)
    requires last.inboundTags == [tag]
    requires t != tag ==> forall r :: r in rules && tag in r.inboundTags ==> t !in r.inboundTags
    ensures Filter(Filter(rules, Silent(tag)) + [last], Mentions(t)) ==
            if t == tag then [last] else Filter(rules, Mentions(t))
  {
    var kept := Filter(rules, Silent(tag));
    FilterAppend(kept, [last], Mentions(t));
    FilterMembers(rules, Silent(tag));
    if t == tag {
      FilterNothing(kept, Mentions(t));
    } else {
      FilterTwice(rules, Silent(tag), Mentions(t), Mentions(t));
    }
  }

  // ----- Set

  ghost predicate ForeignOn(inbounds: seq<Inbound>, port: int) {
    exists i :: i in inbounds && Foreign(i) && i.port == Some(port)
  }

  lemma TakenMeans(c: Config, reg: Registry, port: nat, user: string)
    requires Represents(c, reg) && InRange(port) && PortTaken(c, PublicTag(user, port), port)
    ensures (port in reg && reg[port].user != user) || ForeignOn(c.inbounds, port)
  {
    var k :| 0 <= k < |c.inbounds| && c.inbounds[k].tag != PublicTag(user, port) && c.inbounds[k].port == Some(port);
    var i := c.inbounds[k];
    assert i in c.inbounds;
    if IsPublic(i, reg) {
      var p :| p in reg && i == PublicInbound(p, reg[p]);
    }
  }

  lemma OwnedElsewhereIsTaken(c: Config, reg: Registry, port: nat, user: string)
    requires Represents(c, reg) && port in reg && reg[port].user != user
    ensures PortTaken(c, PublicTag(user, port), port)
  {
    var owner := reg[port].user;
    PresentIff(c, reg, owner, port);
    var k :| 0 <= k < |c.inbounds| && c.inbounds[k].tag == PublicTag(owner, port);
    assert c.inbounds[k] in c.inbounds;
    PublicTagInFamily(owner, port);
    PublicInboundTag(c.inbounds[k], reg, owner, port);
    if c.inbounds[k].tag == PublicTag(user, port) { PublicTagInjective(owner, port, user, port); }
  }

  /** A set is rejected exactly when another user owns the port or a foreign inbound listens on it. */
  lemma SetRejectedIff(c: Config, reg: Registry, port: nat, f: Forward, id: string)
    requires Represents(c, reg) && InRange(port)
    ensures Set(c, port, f, id).None? <==> (port in reg && reg[port].user != f.user) || ForeignOn(c.inbounds, port)
  {
    var tag := PublicTag(f.user, port);
    if PortTaken(c, tag, port) { TakenMeans(c, reg, port, f.user); }
    if port in reg && reg[port].user != f.user { OwnedElsewhereIsTaken(c, reg, port, f.user); }
    if ForeignOn(c.inbounds, port) {
      var i :| i in c.inbounds && Foreign(i) && i.port == Some(port);
      PublicTagInFamily(f.user, port);
      var k :| 0 <= k < |c.inbounds| && c.inbounds[k] == i;
    }
  }

  lemma SetMembers(c: Config, reg: Registry, port: nat, f: Forward, id: string, i: Inbound)
    requires Represents(c, reg) && InRange(port) && !PortTaken(c, PublicTag(f.user, port), port)
    requires i in Filter(AdmitClient(c.inbounds, f.user, id), OtherTag(PublicTag(f.user, port)))
    ensures Foreign(i) || IsListener(i) || IsPublic(i, reg[port := f])
    ensures forall p :: p in reg[port := f] && i.port == Some(p) ==> i.tag == PublicTag(reg[port := f][p].user, p)
  {
    var tag, reg' := PublicTag(f.user, port), reg[port := f];
    var mid := AdmitClient(c.inbounds, f.user, id);
    FilterMembers(mid, OtherTag(tag));
    AdmitClientEffect(c.inbounds, f.user, id);
    if IsListener(i) {
      var l, before := AdmittedListener(c.inbounds, reg, f.user, id);
      assert forall p :: p in reg' ==> InRange(p);
    } else {
      assert i in c.inbounds;
      if i.port == Some(port) { NotTaken(c, tag, port, i); }
      if IsPublic(i, reg) {
        var p :| p in reg && i == PublicInbound(p, reg[p]);
        assert p in reg' && i == PublicInbound(p, reg'[p]);
      }
    }
  }

  lemma SetPublicTags(c: Config, reg: Registry, port: nat, f: Forward, id: string, p: nat)
    requires Represents(c, reg) && InRange(port) && p in reg[port := f]
    ensures var reg' := reg[port := f];
            var tag := PublicTag(f.user, port);
            Filter(Filter(AdmitClient(c.inbounds, f.user, id), OtherTag(tag)) + [PublicInbound(port, f)],
                   HasTag(PublicTag(reg'[p].user, p))) == [PublicInbound(p, reg'[p])]
  {
    var reg' := reg[port := f];
    var tag, t := PublicTag(f.user, port), PublicTag(reg'[p].user, p);
    AdmitClientEffect(c.inbounds, f.user, id);
    FilterReplaced(AdmitClient(c.inbounds, f.user, id), tag, PublicInbound(port, f), t);
    PublicTagInFamily(reg'[p].user, p);
    if p != port && t == tag { PublicTagInjective(reg'[p].user, p, f.user, port); }
  }

  lemma SetAllMembers(c: Config, reg: Registry, port: nat, f: Forward, id: string)
    requires Represents(c, reg) && InRange(port) && !PortTaken(c, PublicTag(f.user, port), port)
    ensures var reg' := reg[port := f];
            var all := Filter(AdmitClient(c.inbounds, f.user, id), OtherTag(PublicTag(f.user, port))) + [PublicInbound(port, f)];
            && (forall i :: i in all ==> Foreign(i) || IsListener(i) || IsPublic(i, reg'))
            && (forall i, p :: i in all && p in reg' && i.port == Some(p) ==> i.tag == PublicTag(reg'[p].user, p))
  {
    var pub, reg' := PublicInbound(port, f), reg[port := f];
    var kept := Filter(AdmitClient(c.inbounds, f.user, id), OtherTag(PublicTag(f.user, port)));
    forall i | i in kept
      ensures Foreign(i) || IsListener(i) || IsPublic(i, reg')
      ensures forall p :: p in reg' && i.port == Some(p) ==> i.tag == PublicTag(reg'[p].user, p)
    {
      SetMembers(c, reg, port, f, id, i);
    }
    assert IsPublic(pub, reg') by { assert pub == PublicInbound(port, reg'[port]); }
  }

  lemma SetInbounds(c: Config, reg: Registry, port: nat, f: Forward, id: string)
    requires Represents(c, reg) && InRange(port) && Set(c, port, f, id).Some?
    ensures InboundsMatch(Set(c, port, f, id).value.inbounds, reg[port := f])
  {
    var pub, reg' := PublicInbound(port, f), reg[port := f];
    var kept := Filter(AdmitClient(c.inbounds, f.user, id), OtherTag(PublicTag(f.user, port)));
    SetAllMembers(c, reg, port, f, id);
    forall p | p in reg'
      ensures Filter(kept + [pub], HasTag(PublicTag(reg'[p].user, p))) == [PublicInbound(p, reg'[p])]
    {
      SetPublicTags(c, reg, port, f, id, p);
    }
  }

  lemma NotTaken(c: Config, tag: string, port: int, i: Inbound)
    requires !PortTaken(c, tag, port) && i in c.inbounds && i.port == Some(port)
    ensures i.tag == tag
  {
    var k :| 0 <= k < |c.inbounds| && c.inbounds[k] == i;
  }

  lemma SetListener(c: Config, reg: Registry, port: nat, f: Forward, id: string)
    requires Represents(c, reg) && InRange(port) && Set(c, port, f, id).Some?
    ensures ListenerMatches(Set(c, port, f, id).value.inbounds, reg[port := f])
  {
    var tag, pub, reg' := PublicTag(f.user, port), PublicInbound(port, f), reg[port := f];
    var mid := AdmitClient(c.inbounds, f.user, id);
    var l := AdmittedAll(c.inbounds, reg, reg', port, f, id);
    PublicTagInFamily(f.user, port);
    FilterReplaced(mid, tag, pub, LISTENER);
    FilterMembers(mid, OtherTag(tag));
    ListenerPortKept(c.inbounds, reg, f.user, id);
  }

  lemma ListenerPortKept(inbounds: seq<Inbound>, reg: Registry, user: string, id: string)
    requires ListenerMatches(inbounds, reg)
    ensures forall i :: i in AdmitClient(inbounds, user, id) && i.port == Some(LISTENER_PORT) ==> IsListener(i)
  {
    AdmitClientEffect(inbounds, user, id);
  }

  /** The listener after admitting a user admits every registered user. */
  lemma AdmittedAll(inbounds: seq<Inbound>, reg: Registry, reg': Registry, port: nat, f: Forward, id: string)
    returns (l: Inbound)
    requires ListenerMatches(inbounds, reg) && reg' == reg[port := f]
    ensures Filter(AdmitClient(inbounds, f.user, id), HasTag(LISTENER)) == [l] && Normalised(l)
    ensures forall i :: i in AdmitClient(inbounds, f.user, id) && IsListener(i) ==> i == l
    ensures forall p :: p in reg' ==> AdmitsOnce(l, reg'[p].user)
  {
    var before;
    l, before := AdmittedListener(inbounds, reg, f.user, id);
    forall p | p in reg' ensures AdmitsOnce(l, reg'[p].user) {
      AdmittedClients(before, f.user, id, reg'[p].user);
      if reg'[p].user != f.user {
        var ls := Filter(inbounds, HasTag(LISTENER));
        assert AdmitsOnce(ls[0], reg[p].user);
      }
    }
  }

  lemma AdmittedClients(before: seq<Client>, user: string, id: string, u: string)
    ensures Filter(Filter(before, OfOthers(user)) + [ClientOf(user, id)], OfUser(u)) ==
            if u == user then [ClientOf(user, id)] else Filter(before, OfUser(u))
  {
    var kept := Filter(before, OfOthers(user));
    FilterAppend(kept, [ClientOf(user, id)], OfUser(u));
    FilterMembers(before, OfOthers(user));
    if u == user {
      FilterNothing(kept, OfUser(u));
    } else {
      FilterTwice(before, OfOthers(user), OfUser(u), OfUser(u));
    }
  }

  /** A registered rule mentions one tag only, so rules of different tags do not meet. */
  lemma RulesApart(rules: seq<Rule>, reg: Registry, tag: string, t: string)
    requires RulesMatch(rules, reg) && InFamily(tag) && t != tag
    ensures forall r :: r in rules && tag in r.inboundTags ==> t !in r.inboundTags
  {
    forall r | r in rules && tag in r.inboundTags ensures t !in r.inboundTags {
      assert !ForeignRule(r);
      var p :| p in reg && r == PublicRule(p, reg[p]);
    }
  }

  lemma SetRuleTags(rules: seq<Rule>, reg: Registry, port: nat, f: Forward, p: nat)
    requires RulesMatch(rules, reg) && p in reg[port := f]
    ensures var owner := reg[port := f][p];
            Filter(Filter(rules, Silent(PublicTag(f.user, port))) + [PublicRule(port, f)], Mentions(PublicTag(owner.user, p)))
            == [PublicRule(p, owner)]
  {
    var owner, tag := reg[port := f][p], PublicTag(f.user, port);
    var t := PublicTag(owner.user, p);
    PublicTagInFamily(f.user, port);
    if p != port && t == tag { PublicTagInjective(owner.user, p, f.user, port); }
    if t != tag { RulesApart(rules, reg, tag, t); }
    FilterRulesReplaced(rules, tag, PublicRule(port, f), t);
  }

  lemma SetRules(c: Config, reg: Registry, port: nat, f: Forward, id: string)
    requires Represents(c, reg) && InRange(port) && Set(c, port, f, id).Some?
    ensures RulesMatch(Set(c, port, f, id).value.rules, reg[port := f])
  {
    var tag, last, reg' := PublicTag(f.user, port), PublicRule(port, f), reg[port := f];
    var kept := Filter(c.rules, Silent(tag));
    PublicTagInFamily(f.user, port);
    FilterMembers(c.rules, Silent(tag));
    forall p | p in reg'
      ensures Filter(kept + [last], Mentions(PublicTag(reg'[p].user, p))) == [PublicRule(p, reg'[p])]
    {
      SetRuleTags(c.rules, reg, port, f, p);
    }
    forall r | r in kept + [last] ensures ForeignRule(r) || exists p :: p in reg' && r == PublicRule(p, reg'[p]) {
      if r in kept && !ForeignRule(r) {
        var p :| p in reg && r == PublicRule(p, reg[p]);
        if p == port {
          PresentIff(c, reg, reg[port].user, port);
          SetRejectedIff(c, reg, port, f, id);
        }
        assert p in reg' && r == PublicRule(p, reg'[p]);
      } else if r == last {
        assert port in reg' && r == PublicRule(port, reg'[port]);
      }
    }
  }

  /** An accepted set registers the forward: the user owns the port, with the given target. */
  lemma SetRepresents(c: Config, reg: Registry, port: nat, f: Forward, id: string)
    requires Represents(c, reg) && InRange(port) && Set(c, port, f, id).Some?
    ensures Represents(Set(c, port, f, id).value, reg[port := f])
  {
    SetInbounds(c, reg, port, f, id);
    SetListener(c, reg, port, f, id);
    SetRules(c, reg, port, f, id);
  }

  // ----- Remove

  function Unregister(reg: Registry, user: string, port: nat): Registry {
    if port in reg && reg[port].user == user then reg - {port} else reg
  }

  /** The test for remaining forwards succeeds for the user's own forwards, and for those of users that shadow it. */
  lemma HasForwardsIff(inbounds: seq<Inbound>, reg: Registry, user: string)
    requires InboundsMatch(inbounds, reg)
    ensures HasForwards(inbounds, user) <==> exists p :: p in reg && (reg[p].user == user || Shadows(user, reg[p].user))
  {
    if HasForwards(inbounds, user) {
      var k :| 0 <= k < |inbounds| && StartsWith(inbounds[k].tag, UserPrefix(user));
      var i := inbounds[k];
      assert i in inbounds;
      PrefixInFamily(i.tag, user);
      ListenerHasNoUserPrefix(user);
      var p :| p in reg && i == PublicInbound(p, reg[p]);
      PrefixMatchIff(user, reg[p].user, p);
    }
    if p :| p in reg && (reg[p].user == user || Shadows(user, reg[p].user)) {
      PrefixMatchIff(user, reg[p].user, p);
      FilterMembers(inbounds, HasTag(PublicTag(reg[p].user, p)));
      assert PublicInbound(p, reg[p]) in Filter(inbounds, HasTag(PublicTag(reg[p].user, p)));
      var k :| 0 <= k < |inbounds| && inbounds[k] == PublicInbound(p, reg[p]);
    }
  }

  lemma RemoveInbounds(inbounds: seq<Inbound>, reg: Registry, user: string, port: nat)
    requires InboundsMatch(inbounds, reg)
    ensures InboundsMatch(Filter(inbounds, OtherTag(PublicTag(user, port))), Unregister(reg, user, port))
  {
    var tag, reg' := PublicTag(user, port), Unregister(reg, user, port);
    var kept := Filter(inbounds, OtherTag(tag));
    FilterMembers(inbounds, OtherTag(tag));
    forall i | i in kept ensures Foreign(i) || IsListener(i) || IsPublic(i, reg') {
      if IsPublic(i, reg) {
        var p :| p in reg && i == PublicInbound(p, reg[p]);
        assert p in reg' && i == PublicInbound(p, reg'[p]);
      }
    }
    forall p | p in reg' ensures Filter(kept, HasTag(PublicTag(reg'[p].user, p))) == [PublicInbound(p, reg'[p])] {
      var t := PublicTag(reg'[p].user, p);
      if t == tag { PublicTagInjective(reg'[p].user, p, user, port); }
      FilterTwice(inbounds, OtherTag(tag), HasTag(t), HasTag(t));
    }
  }

  lemma RemoveRules(rules: seq<Rule>, reg: Registry, user: string, port: nat)
    requires RulesMatch(rules, reg)
    ensures RulesMatch(Filter(rules, Silent(PublicTag(user, port))), Unregister(reg, user, port))
  {
    var tag, reg' := PublicTag(user, port), Unregister(reg, user, port);
    var kept := Filter(rules, Silent(tag));
    PublicTagInFamily(user, port);
    FilterMembers(rules, Silent(tag));
    forall r | r in kept && !ForeignRule(r) ensures exists p :: p in reg' && r == PublicRule(p, reg'[p]) {
      var p :| p in reg && r == PublicRule(p, reg[p]);
      assert p in reg' && r == PublicRule(p, reg'[p]);
    }
    forall p | p in reg' ensures Filter(kept, Mentions(PublicTag(reg'[p].user, p))) == [PublicRule(p, reg'[p])] {
      var t := PublicTag(reg'[p].user, p);
      if t == tag { PublicTagInjective(reg'[p].user, p, user, port); }
      RulesApart(rules, reg, tag, t);
      FilterTwice(rules, Silent(tag), Mentions(t), Mentions(t));
    }
  }

  function Dropped(l: Inbound, user: string): seq<Inbound> {
    var clients := Filter(l.clients, OfOthers(user));
    if clients == [] then [] else [l.(clients := clients)]
  }

  lemma {:induction false} DropClientEffect(inbounds: seq<Inbound>, user: string)
    ensures forall i :: !IsListener(i) ==> (i in DropClient(inbounds, user) <==> i in inbounds)
    ensures forall t :: t != LISTENER ==> Filter(DropClient(inbounds, user), HasTag(t)) == Filter(inbounds, HasTag(t))
    ensures Filter(inbounds, HasTag(LISTENER)) == [] ==> DropClient(inbounds, user) == inbounds
    ensures |Filter(inbounds, HasTag(LISTENER))| == 1 ==>
              Filter(DropClient(inbounds, user), HasTag(LISTENER)) == Dropped(Filter(inbounds, HasTag(LISTENER))[0], user)
  {
    if inbounds != [] {
      DropClientEffect(inbounds[1..], user);
      if IsListener(inbounds[0]) {
        DropAtListener(inbounds, user);
      } else {
        DropElsewhere(inbounds, user);
      }
    }
  }

  lemma DropElsewhere(inbounds: seq<Inbound>, user: string)
    requires inbounds != [] && !IsListener(inbounds[0])
    ensures DropClient(inbounds, user) == [inbounds[0]] + DropClient(inbounds[1..], user)
    ensures forall t :: Filter(DropClient(inbounds, user), HasTag(t)) ==
              (if inbounds[0].tag == t then [inbounds[0]] else []) + Filter(DropClient(inbounds[1..], user), HasTag(t))
  {
  }

  lemma DropAtListener(inbounds: seq<Inbound>, user: string)
    requires inbounds != [] && IsListener(inbounds[0])
    ensures forall i :: !IsListener(i) ==> (i in DropClient(inbounds, user) <==> i in DropClient(inbounds[1..], user))
    ensures forall t :: t != LISTENER ==> Filter(DropClient(inbounds, user), HasTag(t)) == Filter(DropClient(inbounds[1..], user), HasTag(t))
    ensures Filter(DropClient(inbounds, user), HasTag(LISTENER)) ==
            Dropped(inbounds[0], user) + Filter(DropClient(inbounds[1..], user), HasTag(LISTENER))
  {
    var head, rest := Dropped(inbounds[0], user), DropClient(inbounds[1..], user);
    assert DropClient(inbounds, user) == head + rest;
    forall t ensures Filter(head + rest, HasTag(t)) == (if t == LISTENER then head else []) + Filter(rest, HasTag(t)) {
      FilterAppend(head, rest, HasTag(t));
      if t == LISTENER { FilterIdentity(head, HasTag(t)); } else { FilterNothing(head, HasTag(t)); }
    }
  }

  /** Without its own tag the listener still admits every registered user. */
  lemma RemoveListener(inbounds: seq<Inbound>, reg: Registry, user: string, port: nat)
    requires ListenerMatches(inbounds, reg)
    ensures ListenerMatches(Filter(inbounds, OtherTag(PublicTag(user, port))), Unregister(reg, user, port))
  {
    var tag := PublicTag(user, port);
    PublicTagInFamily(user, port);
    FilterMembers(inbounds, OtherTag(tag));
    FilterTwice(inbounds, OtherTag(tag), HasTag(LISTENER), HasTag(LISTENER));
  }

  lemma DropListener(inbounds: seq<Inbound>, reg: Registry, user: string)
    requires ListenerMatches(inbounds, reg) && !Owns(reg, user)
    ensures ListenerMatches(DropClient(inbounds, user), reg)
  {
    var ls, after := Filter(inbounds, HasTag(LISTENER)), DropClient(inbounds, user);
    DropClientEffect(inbounds, user);
    FilterMembers(inbounds, HasTag(LISTENER));
    FilterMembers(after, HasTag(LISTENER));
    if ls != [] {
      var l := ls[0];
      var clients := Filter(l.clients, OfOthers(user));
      forall i | i in after && IsListener(i) ensures clients != [] && i == l.(clients := clients) {
        assert i in Filter(after, HasTag(LISTENER));
      }
      forall p | p in reg
        ensures Filter(clients, OfUser(reg[p].user)) == Filter(l.clients, OfUser(reg[p].user)) != []
        ensures AdmitsOnce(l.(clients := clients), reg[p].user)
      {
        FilterTwice(l.clients, OfOthers(user), OfUser(reg[p].user), OfUser(reg[p].user));
        assert AdmitsOnce(l, reg[p].user);
        var id :| Filter(l.clients, OfUser(reg[p].user)) == [ClientOf(reg[p].user, id)];
      }
    }
  }

  /** A remove unregisters the port if the user owns it, and reports whether it did. */
  lemma RemoveRepresents(c: Config, reg: Registry, user: string, port: nat)
    requires Represents(c, reg)
    ensures Represents(Remove(c, user, port), Unregister(reg, user, port))
    ensures Present(c, PublicTag(user, port)) <==> port in reg && reg[port].user == user
  {
    var reg' := Unregister(reg, user, port);
    var inbounds := Filter(c.inbounds, OtherTag(PublicTag(user, port)));
    PresentIff(c, reg, user, port);
    RemoveInbounds(c.inbounds, reg, user, port);
    RemoveListener(c.inbounds, reg, user, port);
    RemoveRules(c.rules, reg, user, port);
    HasForwardsIff(inbounds, reg', user);
    if !HasForwards(inbounds, user) {
      DropListener(inbounds, reg', user);
      DropClientEffect(inbounds, user);
      DropInbounds(inbounds, reg', user);
    }
  }

  lemma DropInbounds(inbounds: seq<Inbound>, reg: Registry, user: string)
    requires InboundsMatch(inbounds, reg) && ListenerMatches(inbounds, reg) && !Owns(reg, user)
    ensures InboundsMatch(DropClient(inbounds, user), reg)
  {
    var after := DropClient(inbounds, user);
    DropClientEffect(inbounds, user);
    DropListener(inbounds, reg, user);
    forall i, p | i in after && p in reg && i.port == Some(p) ensures i.tag == PublicTag(reg[p].user, p) {
      assert InRange(p);
    }
    forall p | p in reg ensures Filter(after, HasTag(PublicTag(reg[p].user, p))) == [PublicInbound(p, reg[p])] {
      PublicTagInFamily(reg[p].user, p);
    }
  }
}
