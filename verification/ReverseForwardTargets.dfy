/**
 What a configuration that represents a registry says about one forward, read
 off the inbounds, the routing rules and the clients field by field.
 */
module ReverseForwardTargets {
  import opened Lists
  import opened Options
  import opened Text
  import opened ReverseForwardLaws
  import opened ReverseForwardRuns
  import opened ReverseForwards
  import opened ReverseTags

  /** The reverse tag of a user, which no two users share. */
  lemma ReverseTagInjective(u: string, v: string)
    ensures ReverseTag(u) == "omr-rpf-reverse-" + u
    ensures ReverseTag(u) == ReverseTag(v) <==> u == v
  {
    assert ReverseTag(u)[16..] == u && ReverseTag(v)[16..] == v;
  }

  lemma TagText(user: string, port: nat)
    ensures PublicTag(user, port) == "omr-rpf-" + user + "-tcp-" + Decimal(port)
  {
  }

  /** An inbound that takes connections on a public port and sends them to a target in the owner's LAN. */
  predicate Forwards(i: Inbound, port: nat, user: string, dest: string, destPort: int) {
    && i.tag == "omr-rpf-" + user + "-tcp-" + Decimal(port)
    && i.port == Some(port) && i.protocol == "tunnel" && i.clients == []
    && i.body == PortMap(dest, destPort)
  }

  /** The one inbound on a registered port, which is also the only one with its tag, leads to the registered target. */
  lemma ForwardTarget(c: Config, reg: Registry, p: nat) returns (k: nat)
    requires Represents(c, reg) && p in reg
    ensures k < |c.inbounds| && Forwards(c.inbounds[k], p, reg[p].user, reg[p].dest, reg[p].destPort)
    ensures forall j :: 0 <= j < |c.inbounds| && (c.inbounds[j].tag == c.inbounds[k].tag || c.inbounds[j].port == Some(p)) ==> j == k
  {
    var tag := PublicTag(reg[p].user, p);
    k := FilterSingle(c.inbounds, HasTag(tag), PublicInbound(p, reg[p]));
    TagText(reg[p].user, p);
    forall j | 0 <= j < |c.inbounds| && (c.inbounds[j].tag == tag || c.inbounds[j].port == Some(p)) ensures j == k {
      assert c.inbounds[j] in c.inbounds;
      assert HasTag(tag)(c.inbounds[j]);
    }
  }

  /** The one rule for the port's inbound, and for nothing else, goes to the outbound named after the owner. */
  lemma ForwardRoute(c: Config, reg: Registry, p: nat) returns (k: nat)
    requires Represents(c, reg) && p in reg
    ensures var tag := "omr-rpf-" + reg[p].user + "-tcp-" + Decimal(p);
            && k < |c.rules| && c.rules[k].inboundTags == [tag] && c.rules[k].outbound == "omr-rpf-reverse-" + reg[p].user
            && forall j :: 0 <= j < |c.rules| && tag in c.rules[j].inboundTags ==> j == k
  {
    var tag := PublicTag(reg[p].user, p);
    k := FilterSingle(c.rules, Mentions(tag), PublicRule(p, reg[p]));
    TagText(reg[p].user, p);
    ReverseTagInjective(reg[p].user, reg[p].user);
    assert forall j :: 0 <= j < |c.rules| && tag in c.rules[j].inboundTags ==> Mentions(tag)(c.rules[j]);
  }

  /** The listener's client of a user, tied to the user's outbound. */
  predicate IsClientOf(k: Client, user: string) {
    k.email == user && k.reverseTag == Some("omr-rpf-reverse-" + user)
  }

  /** An inbound that accepts the reverse connections of the routers. */
  predicate Listens(i: Inbound) {
    i.tag == "omr-rpf-reverse-listen" && i.port == Some(65444) && i.protocol == "vless" && i.body == TlsListener
  }

  /** The one listener has exactly one client of each owner. */
  lemma ForwardClient(c: Config, reg: Registry, p: nat) returns (l: nat, k: nat)
    requires Represents(c, reg) && p in reg
    ensures l < |c.inbounds| && Listens(c.inbounds[l])
    ensures forall j :: 0 <= j < |c.inbounds| && (c.inbounds[j].tag == c.inbounds[l].tag || c.inbounds[j].port == Some(65444)) ==> j == l
    ensures k < |c.inbounds[l].clients| && IsClientOf(c.inbounds[l].clients[k], reg[p].user)
    ensures forall j :: 0 <= j < |c.inbounds[l].clients| && c.inbounds[l].clients[j].email == reg[p].user ==> j == k
  {
    var ls := Filter(c.inbounds, HasTag(LISTENER));
    l := FilterSingle(c.inbounds, HasTag(LISTENER), ls[0]);
    var listener := c.inbounds[l];
    assert listener in c.inbounds && IsListener(listener) && AdmitsOnce(listener, reg[p].user);
    var id :| Filter(listener.clients, OfUser(reg[p].user)) == [ClientOf(reg[p].user, id)];
    k := FilterSingle(listener.clients, OfUser(reg[p].user), ClientOf(reg[p].user, id));
    forall j | 0 <= j < |c.inbounds| && (c.inbounds[j].tag == listener.tag || c.inbounds[j].port == Some(65444)) ensures j == l {
      assert c.inbounds[j] in c.inbounds;
      assert HasTag(LISTENER)(c.inbounds[j]);
    }
    ReverseTagInjective(reg[p].user, reg[p].user);
    assert forall j :: 0 <= j < |listener.clients| && listener.clients[j].email == reg[p].user ==>
             OfUser(reg[p].user)(listener.clients[j]);
  }

  /** An accepted set gives the listener one client of the user, with the given id, and keeps the other clients in order. */
  lemma SetClient(c: Config, reg: Registry, port: nat, f: Forward, id: string) returns (l: nat, before: seq<Client>)
    requires Represents(c, reg) && InRange(port) && Set(c, port, f, id).Some?
    ensures var inbounds := Set(c, port, f, id).value.inbounds;
            && l < |inbounds| && Listens(inbounds[l])
            && Filter(inbounds[l].clients, OfUser(f.user)) == [Client(id, f.user, Some("omr-rpf-reverse-" + f.user))]
            && Filter(inbounds[l].clients, OfOthers(f.user)) == Filter(before, OfOthers(f.user))
            && (if exists i :: i in c.inbounds && Listens(i) then exists i :: i in c.inbounds && Listens(i) && i.clients == before
                else before == [])
  {
    var tag, mid := PublicTag(f.user, port), AdmitClient(c.inbounds, f.user, id);
    var inbounds := Set(c, port, f, id).value.inbounds;
    var listener;
    listener, before := AdmittedListener(c.inbounds, reg, f.user, id);
    PublicTagInFamily(f.user, port);
    FilterReplaced(mid, tag, PublicInbound(port, f), LISTENER);
    l := FilterSingle(inbounds, HasTag(LISTENER), listener);
    OwnClient(before, f.user, id);
    ListenersBefore(c.inbounds, reg, before);
  }

  lemma OwnClient(before: seq<Client>, user: string, id: string)
    ensures var clients := Filter(before, OfOthers(user)) + [ClientOf(user, id)];
            && Filter(clients, OfUser(user)) == [Client(id, user, Some("omr-rpf-reverse-" + user))]
            && Filter(clients, OfOthers(user)) == Filter(before, OfOthers(user))
  {
    var others, own := Filter(before, OfOthers(user)), ClientOf(user, id);
    FilterMembers(before, OfOthers(user));
    FilterAppend(others, [own], OfUser(user));
    FilterAppend(others, [own], OfOthers(user));
    FilterNothing(others, OfUser(user));
    FilterIdentity(others, OfOthers(user));
  }

  lemma ListenersBefore(inbounds: seq<Inbound>, reg: Registry, before: seq<Client>)
    requires ListenerMatches(inbounds, reg)
    requires var ls := Filter(inbounds, HasTag(LISTENER)); if ls == [] then before == [] else before == ls[0].clients
    ensures if exists i :: i in inbounds && Listens(i) then exists i :: i in inbounds && Listens(i) && i.clients == before
            else before == []
  {
    var ls := Filter(inbounds, HasTag(LISTENER));
    FilterMembers(inbounds, HasTag(LISTENER));
    if ls != [] {
      assert ls[0] in ls && ls[0] in inbounds && IsListener(ls[0]);
      assert Listens(ls[0]);
    }
  }

  /** A public socket that bulk redirection must leave alone. */
  predicate PublicSocket(i: Inbound, p: int) {
    && StartsWith(i.tag, "omr-rpf-") && i.tag != "omr-rpf-reverse-listen"
    && i.protocol == "tunnel" && i.port == Some(p) && 1 <= p <= 64999
  }

  /** In any configuration the bypass list has the ports of the public sockets, and nothing else. */
  lemma BypassIff(c: Config, p: int)
    ensures p in Bypass(c) <==> exists k :: 0 <= k < |c.inbounds| && PublicSocket(c.inbounds[k], p)
  {
    SortedMembers(BypassPorts(c), 1, p);
    if k :| 0 <= k < |c.inbounds| && PublicSocket(c.inbounds[k], p) {
      assert Bypassed(c.inbounds[k]) && c.inbounds[k].port.value == p;
    }
    if p in BypassPorts(c) {
      var k :| 0 <= k < |c.inbounds| && Bypassed(c.inbounds[k]) && c.inbounds[k].port.value == p;
      assert PublicSocket(c.inbounds[k], p);
    }
  }

  /** For instance: a forward of port 8080 to port 80 of a host in bob's LAN. */
  lemma TargetInstance()
    ensures var reg: Registry := map[8080 := Forward("bob", "192.168.1.2", 80)];
            var c := Set(Config([], []), 8080, reg[8080], "id");
            && c.Some? && Represents(c.value, reg)
            && exists i :: i in c.value.inbounds && Forwards(i, 8080, "bob", "192.168.1.2", 80)
  {
    var f := Forward("bob", "192.168.1.2", 80);
    var empty, none := Config([], []), map[];
    FreshRepresents(empty);
    SetRepresents(empty, none, 8080, f, "id");
    assert none[8080 := f] == map[8080 := f];
    var after := Set(empty, 8080, f, "id").value;
    var k := ForwardTarget(after, map[8080 := f], 8080);
    assert after.inbounds[k] in after.inbounds;
  }
}
