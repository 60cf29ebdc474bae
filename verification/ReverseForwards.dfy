/**
 The XRay configuration edited by reverse TCP forwards: public inbounds, one
 shared listener with a client per user, and a routing rule per public inbound.

 A missing tag is the empty string, and a port that is not an integer is None.
 What the edits never look at is kept in the `body` and `extra` texts.
 */
module ReverseForwards {
  import opened Lists
  import opened Options
  import opened ReverseTags
  import opened Text

  const LISTENER_PORT := 65444

  datatype Client = Client(id: string, email: string, reverseTag: Option<string>)

  datatype Body = TlsListener | PortMap(dest: string, destPort: int) | OtherBody(text: string)

  datatype Inbound = Inbound(tag: string, port: Option<int>, protocol: string, clients: seq<Client>, body: Body, extra: string)

  datatype Rule = Rule(inboundTags: seq<string>, outbound: string, extra: string)

  datatype Config = Config(inbounds: seq<Inbound>, rules: seq<Rule>)

  /** One reverse forward: the owner of a public port and its target in the owner's LAN. */
  datatype Forward = Forward(user: string, dest: string, destPort: int)

  // ----- The pieces an edit writes

  function PublicInbound(port: nat, f: Forward): Inbound {
    Inbound(PublicTag(f.user, port), Some(port), "tunnel", [], PortMap(f.dest, f.destPort), "")
  }

  function PublicRule(port: nat, f: Forward): Rule {
    Rule([PublicTag(f.user, port)], ReverseTag(f.user), "")
  }

  function ClientOf(user: string, id: string): Client {
    Client(id, user, Some(ReverseTag(user)))
  }

  predicate IsListener(i: Inbound) {
    i.tag == LISTENER
  }

  function HasTag(tag: string): Inbound -> bool {
    (i: Inbound) => i.tag == tag
  }

  function OtherTag(tag: string): Inbound -> bool {
    (i: Inbound) => i.tag != tag
  }

  function Mentions(tag: string): Rule -> bool {
    (r: Rule) => tag in r.inboundTags
  }

  function Silent(tag: string): Rule -> bool {
    (r: Rule) => tag !in r.inboundTags
  }

  function OfUser(user: string): Client -> bool {
    (c: Client) => c.email == user
  }

  function OfOthers(user: string): Client -> bool {
    (c: Client) => c.email != user
  }

  /** The listener with its transport normalised and the user's client as the last one. */
  function Admit(l: Inbound, user: string, id: string): Inbound {
    l.(port := Some(LISTENER_PORT), protocol := "vless", body := TlsListener,
       clients := Filter(l.clients, OfOthers(user)) + [ClientOf(user, id)])
  }

  const FRESH_LISTENER := Inbound(LISTENER, Some(LISTENER_PORT), "vless", [], TlsListener, "")

  /** Admit the user's client to the first listener, appending a fresh listener if there is none. */
  function AdmitClient(inbounds: seq<Inbound>, user: string, id: string): seq<Inbound> {
    if inbounds == [] then [Admit(FRESH_LISTENER, user, id)]
    else if IsListener(inbounds[0]) then [Admit(inbounds[0], user, id)] + inbounds[1..]
    else [inbounds[0]] + AdmitClient(inbounds[1..], user, id)
  }

  /** Drop the user's client from the listeners, and listeners left without clients. */
  function DropClient(inbounds: seq<Inbound>, user: string): seq<Inbound> {
    if inbounds == [] then []
    else if IsListener(inbounds[0]) then
      var clients := Filter(inbounds[0].clients, OfOthers(user));
      (if clients == [] then [] else [inbounds[0].(clients := clients)]) + DropClient(inbounds[1..], user)
    else [inbounds[0]] + DropClient(inbounds[1..], user)
  }

  // ----- The two edits

  /** Another inbound already listens on the port. */
  predicate PortTaken(c: Config, tag: string, port: int) {
    exists i | 0 <= i < |c.inbounds| :: c.inbounds[i].tag != tag && c.inbounds[i].port == Some(port)
  }

  function Set(c: Config, port: nat, f: Forward, id: string): Option<Config> {
    var tag := PublicTag(f.user, port);
    if PortTaken(c, tag, port) then None
    else Some(Config(Filter(AdmitClient(c.inbounds, f.user, id), OtherTag(tag)) + [PublicInbound(port, f)],
                     Filter(c.rules, Silent(tag)) + [PublicRule(port, f)]))
  }

  /** Some inbound passes the test for a remaining forward of the user. */
  predicate HasForwards(inbounds: seq<Inbound>, user: string) {
    exists i | 0 <= i < |inbounds| :: StartsWith(inbounds[i].tag, UserPrefix(user))
  }

  predicate Present(c: Config, tag: string) {
    exists i | 0 <= i < |c.inbounds| :: c.inbounds[i].tag == tag
  }

  function Remove(c: Config, user: string, port: nat): Config {
    var tag := PublicTag(user, port);
    var inbounds := Filter(c.inbounds, OtherTag(tag));
    Config(if HasForwards(inbounds, user) then inbounds else DropClient(inbounds, user),
           Filter(c.rules, Silent(tag)))
  }

  class Editor {
    var inbounds: seq<Inbound>
    var rules: seq<Rule>

    constructor (c: Config)
      ensures Abstract() == c
    {
      inbounds, rules := c.inbounds, c.rules;
    }

    ghost function Abstract(): Config
      reads this
    {
      Config(inbounds, rules)
    }

    method SetForward(port: nat, f: Forward, id: string) returns (ok: bool)
      modifies this
      ensures ok <==> Set(old(Abstract()), port, f, id).Some?
      ensures Abstract() == if ok then Set(old(Abstract()), port, f, id).value else old(Abstract())
    {
      var tag := PublicTag(f.user, port);
      for i := 0 to |inbounds|
        invariant Abstract() == old(Abstract())
        invariant forall j :: 0 <= j < i ==> !(inbounds[j].tag != tag && inbounds[j].port == Some(port))
      {
        if inbounds[i].tag != tag && inbounds[i].port == Some(port) {
          return false;
        }
      }
      AdmitToListener(f.user, id);
      inbounds := Filter(inbounds, OtherTag(tag)) + [PublicInbound(port, f)];
      rules := Filter(rules, Silent(tag)) + [PublicRule(port, f)];
      return true;
    }

    method AdmitToListener(user: string, id: string)
      modifies this`inbounds
      ensures inbounds == AdmitClient(old(inbounds), user, id)
    {
      for i := 0 to |inbounds|
        invariant inbounds == old(inbounds)
        invariant forall j :: 0 <= j < i ==> !IsListener(inbounds[j])
      {
        if IsListener(inbounds[i]) {
          AdmitAt(inbounds, i, user, id);
          inbounds := inbounds[i := Admit(inbounds[i], user, id)];
          return;
        }
      }
      AdmitAt(inbounds, |inbounds|, user, id);
      inbounds := inbounds + [Admit(FRESH_LISTENER, user, id)];
    }

    method RemoveForward(user: string, port: nat) returns (found: bool)
      modifies this
      ensures found <==> Present(old(Abstract()), PublicTag(user, port))
      ensures Abstract() == Remove(old(Abstract()), user, port)
    {
      var tag := PublicTag(user, port);
      found := exists i | 0 <= i < |inbounds| :: inbounds[i].tag == tag;
      inbounds := Filter(inbounds, OtherTag(tag));
      rules := Filter(rules, Silent(tag));
      if !HasForwards(inbounds, user) {
        var kept: seq<Inbound> := [];
        ghost var all := inbounds;
        for i := 0 to |inbounds|
          invariant inbounds == all && rules == Filter(old(rules), Silent(tag))
          invariant kept == DropClient(all[..i], user)
        {
          assert all[..i + 1] == all[..i] + [all[i]];
          DropClientAppend(all[..i], [all[i]], user);
          if IsListener(inbounds[i]) {
            var clients := Filter(inbounds[i].clients, OfOthers(user));
            if clients != [] {
              kept := kept + [inbounds[i].(clients := clients)];
            }
          } else {
            kept := kept + [inbounds[i]];
          }
        }
        assert all[..|all|] == all;
        inbounds := kept;
      }
    }
  }

  lemma {:induction false} AdmitAt(inbounds: seq<Inbound>, i: nat, user: string, id: string)
    requires i <= |inbounds| && forall j :: 0 <= j < i ==> !IsListener(inbounds[j])
    ensures i == |inbounds| ==> AdmitClient(inbounds, user, id) == inbounds + [Admit(FRESH_LISTENER, user, id)]
    ensures i < |inbounds| && IsListener(inbounds[i]) ==>
              AdmitClient(inbounds, user, id) == inbounds[i := Admit(inbounds[i], user, id)]
  {
    if i > 0 { AdmitAt(inbounds[1..], i - 1, user, id); }
  }

  lemma {:induction false} DropClientAppend(a: seq<Inbound>, b: seq<Inbound>, user: string)
    ensures DropClient(a + b, user) == DropClient(a, user) + DropClient(b, user)
  {
    if a == [] {
      assert a + b == b;
    } else {
      assert (a + b)[1..] == a[1..] + b;
      DropClientAppend(a[1..], b, user);
    }
  }
}
