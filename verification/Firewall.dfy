/**
 The nftables engine for opened and redirected ports: the per-user entries are
 compiled to two rule chains, and every change of the entries is followed by a
 resynchronisation of both chains.

 Rules are structured values evaluated first match first. How nft reads a port
 specification and an address specification is a parameter of the evaluation.
 */
module Firewall {
  import opened Lists
  import opened Options
  import Text

  // ----- Stored configuration

  datatype UserId = Missing | Numeric(id: nat) | Textual(text: string)

  datatype Entry = Entry(name: string, port: string, proto: string, fwtype: Option<string>, family: int,
                         sourceDip: string, destIp: string, vpn: string, comment: string)

  datatype User = User(name: string, userid: UserId, vpnRemoteIp: string, ports: seq<Entry>)

  datatype Config = Config(users: seq<User>, bulkV4: bool, bulkV6: bool)

  const PRIMARY_USER := "openmptcprouter"

  // ----- Rules and packets

  datatype Family = V4 | V6
  datatype Ports = Spec(text: string) | Range(lo: nat, hi: nat)
  datatype Verdict = Accept | Dnat(target: string)
  datatype Rule = Rule(family: Family, daddr: Option<string>, saddr: Option<string>, proto: string,
                       ports: Ports, verdict: Verdict)

  datatype Packet = Packet(family: Family, saddr: string, daddr: string, proto: string, dport: nat)

  /** How nft reads a port specification and an address specification. */
  datatype Nft = Nft(portIn: (string, nat) -> bool, addrIn: (string, string) -> bool)

  predicate Matches(nft: Nft, r: Rule, p: Packet) {
    && r.family == p.family
    && (r.daddr.Some? ==> nft.addrIn(r.daddr.value, p.daddr))
    && (r.saddr.Some? ==> nft.addrIn(r.saddr.value, p.saddr))
    && r.proto == p.proto
    && match r.ports
       case Spec(text) => nft.portIn(text, p.dport)
       case Range(lo, hi) => lo <= p.dport <= hi
  }

  /** The verdict of a chain on a packet: that of its first matching rule. */
  function Evaluate(nft: Nft, rules: seq<Rule>, p: Packet): Option<Verdict> {
    if rules == [] then None
    else if Matches(nft, rules[0], p) then Some(rules[0].verdict)
    else Evaluate(nft, rules[1..], p)
  }

  // ----- Rendering

  function NonEmpty(s: string): Option<string> {
    if s == "" then None else Some(s)
  }

  function FamilyOf(family: int): Family {
    if family == 4 then V4 else V6
  }

  /** The tunnel address of a user id; formatting a textual id as a number fails. */
  function TargetV6(userid: UserId): Option<string> {
    match userid
    case Missing => Some("fd00::a0" + Hex(0) + ":2")
    case Numeric(id) => Some("fd00::a0" + Hex(id) + ":2")
    case Textual(text) => if text == "" then Some("fd00::a0" + Hex(0) + ":2") else None
  }

  function HexDigit(d: nat): char
    requires d < 16
  {
    if d < 10 then Text.Digit(d) else (d - 10 + 'a' as int) as char
  }

  function Hex(n: nat): string {
    if n < 16 then [HexDigit(n)] else Hex(n / 16) + [HexDigit(n % 16)]
  }

  datatype Owned = Owned(user: User, entry: Entry)

  function OwnedBy(u: User): (r: seq<Owned>)
    ensures |r| == |u.ports| && forall j :: 0 <= j < |r| ==> r[j] == Owned(u, u.ports[j])
  {
    seq(|u.ports|, j requires 0 <= j < |u.ports| => Owned(u, u.ports[j]))
  }

  /** Every entry with its owner, in dictionary order and then in list order. */
  function AllEntries(users: seq<User>): seq<Owned> {
    if users == [] then [] else AllEntries(users[..|users| - 1]) + OwnedBy(users[|users| - 1])
  }

  predicate IsAccept(e: Entry) {
    e.fwtype.GetOr("ACCEPT") == "ACCEPT"
  }

  predicate IsDnat(e: Entry) {
    e.fwtype == Some("DNAT")
  }

  /** The redirection of this entry goes to an address formatted from the owner's id. */
  predicate NeedsFormatting(e: Entry) {
    IsDnat(e) && e.vpn == "default" && e.family != 4
  }

  /** The formatting this entry needs fails. */
  predicate Unformattable(o: Owned) {
    NeedsFormatting(o.entry) && TargetV6(o.user.userid).None?
  }

  /** Where a redirection goes; the empty string when no address is known. */
  function TargetOf(o: Owned): string {
    if o.entry.vpn != "default" then o.entry.vpn
    else if o.entry.family == 4 then o.user.vpnRemoteIp
    else TargetV6(o.user.userid).GetOr("")
  }

  function RuleOf(e: Entry, verdict: Verdict): Rule {
    Rule(FamilyOf(e.family), NonEmpty(e.sourceDip), NonEmpty(e.destIp), e.proto, Spec(e.port), verdict)
  }

  function AcceptRules(os: seq<Owned>): seq<Rule> {
    if os == [] then []
    else
      var rest, o := AcceptRules(os[..|os| - 1]), os[|os| - 1];
      if IsAccept(o.entry) then rest + [RuleOf(o.entry, Accept)] else rest
  }

  function DnatRules(os: seq<Owned>): seq<Rule> {
    if os == [] then []
    else
      var rest, o := DnatRules(os[..|os| - 1]), os[|os| - 1];
      if IsDnat(o.entry) && TargetOf(o) != "" then rest + [RuleOf(o.entry, Dnat(TargetOf(o)))] else rest
  }

  function PrimaryUser(users: seq<User>): User {
    if users == [] then User(PRIMARY_USER, Missing, "", [])
    else if users[0].name == PRIMARY_USER then users[0]
    else PrimaryUser(users[1..])
  }

  function BulkRule(family: Family, proto: string, target: string): Rule {
    Rule(family, None, None, proto, Range(1, 64999), Dnat(target))
  }

  function BulkRules(c: Config): seq<Rule> {
    var primary := PrimaryUser(c.users);
    var target6 := TargetV6(primary.userid).GetOr("");
    (if c.bulkV4 && primary.vpnRemoteIp != ""
     then [BulkRule(V4, "tcp", primary.vpnRemoteIp), BulkRule(V4, "udp", primary.vpnRemoteIp)] else [])
    + (if c.bulkV6 then [BulkRule(V6, "tcp", target6), BulkRule(V6, "udp", target6)] else [])
  }

  datatype Chains = Chains(accept: seq<Rule>, dnat: seq<Rule>)

  function Render(c: Config): Chains {
    var os := AllEntries(c.users);
    Chains(AcceptRules(os), BulkRules(c) + DnatRules(os))
  }

  /** Rendering raises, because some textual user id would have to be formatted as a number. */
  predicate RenderRaises(c: Config) {
    || (exists k | 0 <= k < |AllEntries(c.users)| :: Unformattable(AllEntries(c.users)[k]))
    || (c.bulkV6 && TargetV6(PrimaryUser(c.users).userid).None?)
  }

  /** The chains a resynchronisation installs, if rendering does not raise. */
  function Compile(c: Config): Option<Chains> {
    if RenderRaises(c) then None else Some(Render(c))
  }

  /** The rules of the entries `before` and one more; fails at an entry whose target cannot be formatted. */
  method RenderEntry(u: User, e: Entry, ghost before: seq<Owned>, accept0: seq<Rule>, dnat0: seq<Rule>)
    returns (failed: bool, accept: seq<Rule>, dnat: seq<Rule>)
    requires accept0 == AcceptRules(before) && dnat0 == DnatRules(before)
    ensures failed <==> Unformattable(Owned(u, e))
    ensures !failed ==> accept == AcceptRules(before + [Owned(u, e)]) && dnat == DnatRules(before + [Owned(u, e)])
  {
    failed, accept, dnat := false, accept0, dnat0;
    assert (before + [Owned(u, e)])[..|before|] == before;
    if e.fwtype.None? || e.fwtype == Some("ACCEPT") {
      accept := accept + [RuleOf(e, Accept)];
    } else if e.fwtype == Some("DNAT") {
      var target;
      if e.vpn != "default" {
        target := e.vpn;
      } else if e.family == 4 {
        target := u.vpnRemoteIp;
      } else {
        var formatted := TargetV6(u.userid);
        if formatted.None? {
          return true, accept, dnat;
        }
        target := formatted.value;
      }
      if target != "" {
        dnat := dnat + [RuleOf(e, Dnat(target))];
      }
    }
  }

  /** The inner loop: extend the rules of the entries `before` by those of one user. */
  method RenderUser(u: User, ghost before: seq<Owned>, accept0: seq<Rule>, dnat0: seq<Rule>)
    returns (failed: Option<nat>, accept: seq<Rule>, dnat: seq<Rule>)
    requires accept0 == AcceptRules(before) && dnat0 == DnatRules(before)
    ensures failed.None? ==> forall j :: 0 <= j < |u.ports| ==> !Unformattable(Owned(u, u.ports[j]))
    ensures failed.Some? ==> failed.value < |u.ports| && Unformattable(Owned(u, u.ports[failed.value]))
    ensures failed.None? ==> accept == AcceptRules(before + OwnedBy(u)) && dnat == DnatRules(before + OwnedBy(u))
  {
    accept, dnat := accept0, dnat0;
    assert before + OwnedBy(u)[..0] == before;
    for j := 0 to |u.ports|
      invariant accept == AcceptRules(before + OwnedBy(u)[..j]) && dnat == DnatRules(before + OwnedBy(u)[..j])
      invariant forall k :: 0 <= k < j ==> !Unformattable(Owned(u, u.ports[k]))
    {
      ghost var seen := before + OwnedBy(u)[..j];
      assert before + OwnedBy(u)[..j + 1] == seen + [Owned(u, u.ports[j])];
      var stop;
      stop, accept, dnat := RenderEntry(u, u.ports[j], seen, accept, dnat);
      if stop {
        return Some(j), accept, dnat;
      }
    }
    assert OwnedBy(u)[..|u.ports|] == OwnedBy(u);
    failed := None;
  }

  method RenderFwPorts(users: seq<User>) returns (raised: bool, accept: seq<Rule>, dnat: seq<Rule>)
    ensures raised <==> exists k :: 0 <= k < |AllEntries(users)| && Unformattable(AllEntries(users)[k])
    ensures !raised ==> accept == AcceptRules(AllEntries(users)) && dnat == DnatRules(AllEntries(users))
  {
    accept, dnat, raised := [], [], false;
    for i := 0 to |users|
      invariant accept == AcceptRules(AllEntries(users[..i])) && dnat == DnatRules(AllEntries(users[..i]))
      invariant forall k :: 0 <= k < |AllEntries(users[..i])| ==> !Unformattable(AllEntries(users[..i])[k])
    {
      ghost var before := AllEntries(users[..i]);
      assert AllEntries(users[..i + 1]) == before + OwnedBy(users[i]) by { assert users[..i + 1][..i] == users[..i]; }
      var failed;
      failed, accept, dnat := RenderUser(users[i], before, accept, dnat);
      if failed.Some? {
        InPrefix(users, i, failed.value);
        return true, accept, dnat;
      }
    }
    assert users[..|users|] == users;
  }

  /** Entries of a prefix of the users come first in the list of all entries. */
  lemma {:induction false} PrefixEntries(users: seq<User>, i: nat)
    requires i <= |users|
    ensures AllEntries(users[..i]) <= AllEntries(users)
  {
    if i == |users| {
      assert users[..i] == users;
    } else {
      PrefixEntries(users[..|users| - 1], i);
      assert users[..|users| - 1][..i] == users[..i];
    }
  }

  lemma InPrefix(users: seq<User>, i: nat, j: nat)
    requires i < |users| && j < |users[i].ports|
    ensures var k := |AllEntries(users[..i])| + j;
            k < |AllEntries(users)| && AllEntries(users)[k] == Owned(users[i], users[i].ports[j])
  {
    PrefixEntries(users, i + 1);
    assert users[..i + 1][..i] == users[..i];
  }

  // ----- Compilation preserves meaning

  /** The packet is one the entry speaks about. */
  predicate EntryMatches(nft: Nft, e: Entry, p: Packet) {
    && (p.family == V4 <==> e.family == 4)
    && (e.sourceDip != "" ==> nft.addrIn(e.sourceDip, p.daddr))
    && (e.destIp != "" ==> nft.addrIn(e.destIp, p.saddr))
    && e.proto == p.proto
    && nft.portIn(e.port, p.dport)
  }

  predicate Redirects(nft: Nft, o: Owned, p: Packet) {
    o.entry.fwtype == Some("DNAT") && EntryMatches(nft, o.entry, p) && TargetOf(o) != ""
  }

  predicate BulkPacket(p: Packet) {
    (p.proto == "tcp" || p.proto == "udp") && 1 <= p.dport <= 64999
  }

  /** The bulk switch of the packet's family is on and its target known. */
  predicate BulkOn(c: Config, p: Packet) {
    if p.family == V4 then c.bulkV4 && PrimaryUser(c.users).vpnRemoteIp != "" else c.bulkV6
  }

  function BulkTarget(c: Config, p: Packet): string {
    if p.family == V4 then PrimaryUser(c.users).vpnRemoteIp
    else TargetV6(PrimaryUser(c.users).userid).GetOr("")
  }

  /** The first entry that redirects the packet is the k-th. */
  ghost predicate FirstRedirect(nft: Nft, os: seq<Owned>, p: Packet, k: int) {
    && 0 <= k < |os| && Redirects(nft, os[k], p)
    && forall j :: 0 <= j < k ==> !Redirects(nft, os[j], p)
  }

  /** Read from the configuration: some entry opens the port for this packet. */
  ghost predicate Opened(nft: Nft, c: Config, p: Packet) {
    exists k :: 0 <= k < |AllEntries(c.users)|
      && (AllEntries(c.users)[k].entry.fwtype == None || AllEntries(c.users)[k].entry.fwtype == Some("ACCEPT"))
      && EntryMatches(nft, AllEntries(c.users)[k].entry, p)
  }

  /** Read from the configuration: the packet is redirected to this target. */
  ghost predicate RedirectedTo(nft: Nft, c: Config, p: Packet, target: string) {
    if BulkPacket(p) && BulkOn(c, p) then target == BulkTarget(c, p)
    else exists k :: FirstRedirect(nft, AllEntries(c.users), p, k) && target == TargetOf(AllEntries(c.users)[k])
  }

  lemma {:induction false} EvaluateAppend(nft: Nft, a: seq<Rule>, b: seq<Rule>, p: Packet)
    ensures Evaluate(nft, a + b, p) == if Evaluate(nft, a, p).Some? then Evaluate(nft, a, p) else Evaluate(nft, b, p)
  {
    if a == [] {
      assert a + b == b;
    } else {
      assert (a + b)[1..] == a[1..] + b;
      EvaluateAppend(nft, a[1..], b, p);
    }
  }

  lemma {:induction false} AcceptChain(nft: Nft, os: seq<Owned>, p: Packet)
    ensures Evaluate(nft, AcceptRules(os), p) ==
            if exists k :: 0 <= k < |os| && IsAccept(os[k].entry) && EntryMatches(nft, os[k].entry, p)
            then Some(Accept) else None
  {
    if os != [] {
      var init, o := os[..|os| - 1], os[|os| - 1];
      AcceptChain(nft, init, p);
      if exists k :: 0 <= k < |init| && IsAccept(init[k].entry) && EntryMatches(nft, init[k].entry, p) {
        var k :| 0 <= k < |init| && IsAccept(init[k].entry) && EntryMatches(nft, init[k].entry, p);
        assert os[k] == init[k];
      }
      if IsAccept(o.entry) {
        EvaluateAppend(nft, AcceptRules(init), [RuleOf(o.entry, Accept)], p);
      }
    }
  }

  /** The target of the first redirecting entry. */
  function Redirection(nft: Nft, os: seq<Owned>, p: Packet): Option<string> {
    if os == [] then None
    else
      var earlier, o := Redirection(nft, os[..|os| - 1], p), os[|os| - 1];
      if earlier.Some? then earlier else if Redirects(nft, o, p) then Some(TargetOf(o)) else None
  }

  lemma {:induction false} DnatChain(nft: Nft, os: seq<Owned>, p: Packet)
    ensures Evaluate(nft, DnatRules(os), p) ==
            match Redirection(nft, os, p) case Some(t) => Some(Dnat(t)) case None => None
  {
    if os != [] {
      var init, o := os[..|os| - 1], os[|os| - 1];
      DnatChain(nft, init, p);
      if IsDnat(o.entry) && TargetOf(o) != "" {
        EvaluateAppend(nft, DnatRules(init), [RuleOf(o.entry, Dnat(TargetOf(o)))], p);
      }
    }
  }

  lemma {:induction false} RedirectionIsFirst(nft: Nft, os: seq<Owned>, p: Packet)
    ensures Redirection(nft, os, p).None? ==> forall k :: 0 <= k < |os| ==> !Redirects(nft, os[k], p)
    ensures Redirection(nft, os, p).Some? ==>
              exists k :: FirstRedirect(nft, os, p, k) && Redirection(nft, os, p).value == TargetOf(os[k])
  {
    if os != [] {
      var init := os[..|os| - 1];
      RedirectionIsFirst(nft, init, p);
      if Redirection(nft, init, p).Some? {
        var k :| FirstRedirect(nft, init, p, k) && Redirection(nft, init, p).value == TargetOf(init[k]);
        FirstInLonger(nft, os, p, k);
      } else {
        assert forall k :: 0 <= k < |init| ==> os[k] == init[k];
        if Redirects(nft, os[|os| - 1], p) {
          assert FirstRedirect(nft, os, p, |os| - 1);
        }
      }
    }
  }

  lemma FirstInLonger(nft: Nft, os: seq<Owned>, p: Packet, k: int)
    requires os != [] && FirstRedirect(nft, os[..|os| - 1], p, k)
    ensures FirstRedirect(nft, os, p, k) && os[k] == os[..|os| - 1][k]
  {
    assert forall j :: 0 <= j <= k ==> os[j] == os[..|os| - 1][j];
  }

  lemma FirstRedirectUnique(nft: Nft, os: seq<Owned>, p: Packet, k: int, l: int)
    requires FirstRedirect(nft, os, p, k) && FirstRedirect(nft, os, p, l)
    ensures k == l
  {
  }

  lemma BulkChain(nft: Nft, c: Config, p: Packet)
    ensures Evaluate(nft, BulkRules(c), p) ==
            if BulkPacket(p) && BulkOn(c, p) then Some(Dnat(BulkTarget(c, p))) else None
  {
    var primary := PrimaryUser(c.users);
    var v4 := if c.bulkV4 && primary.vpnRemoteIp != ""
              then [BulkRule(V4, "tcp", primary.vpnRemoteIp), BulkRule(V4, "udp", primary.vpnRemoteIp)] else [];
    var target6 := TargetV6(primary.userid).GetOr("");
    var v6 := if c.bulkV6 then [BulkRule(V6, "tcp", target6), BulkRule(V6, "udp", target6)] else [];
    EvaluateAppend(nft, v4, v6, p);
    EvaluatePair(nft, V4, primary.vpnRemoteIp, p);
    EvaluatePair(nft, V6, target6, p);
  }

  lemma EvaluatePair(nft: Nft, family: Family, target: string, p: Packet)
    ensures Evaluate(nft, [BulkRule(family, "tcp", target), BulkRule(family, "udp", target)], p) ==
            if p.family == family && BulkPacket(p) then Some(Dnat(target)) else None
  {
    var tcp, udp := BulkRule(family, "tcp", target), BulkRule(family, "udp", target);
    assert [tcp, udp][1..] == [udp] && [udp][1..] == [];
    assert Evaluate(nft, [udp], p) == if Matches(nft, udp, p) then Some(Dnat(target)) else None;
  }

  /** Chains give each packet the verdicts read from the configuration. */
  ghost predicate Faithful(nft: Nft, chains: Chains, c: Config, p: Packet) {
    && Evaluate(nft, chains.accept, p) == (if Opened(nft, c, p) then Some(Accept) else None)
    && (Evaluate(nft, chains.dnat, p).Some? <==> exists t :: RedirectedTo(nft, c, p, t))
    && forall t :: RedirectedTo(nft, c, p, t) ==> Evaluate(nft, chains.dnat, p) == Some(Dnat(t))
  }

  /**
   Rule compilation preserves meaning: a configuration compiles exactly when every address it
   redirects to can be formatted, and the compiled chains give every packet the verdicts that the
   configuration itself describes.
   */
  lemma RenderingIsFaithful(nft: Nft, c: Config, p: Packet)
    ensures Compile(c).Some? <==>
            && (forall i, j :: 0 <= i < |c.users| && 0 <= j < |c.users[i].ports| ==>
                  !(NeedsFormatting(c.users[i].ports[j]) && TargetV6(c.users[i].userid).None?))
            && !(c.bulkV6 && TargetV6(PrimaryUser(c.users).userid).None?)
    ensures Compile(c).Some? ==> Faithful(nft, Compile(c).value, c, p)
  {
    OffendsIff(c.users);
    RenderIsFaithful(nft, c, p);
  }

  lemma {:induction false} EntriesAppend(a: seq<User>, b: seq<User>)
    ensures AllEntries(a + b) == AllEntries(a) + AllEntries(b)
  {
    if b == [] {
      assert a + b == a;
    } else {
      var init, last := b[..|b| - 1], b[|b| - 1];
      EntriesAppend(a, init);
      assert (a + b)[..|a + b| - 1] == a + init && (a + b)[|a + b| - 1] == last;
      assert AllEntries(a + b) == (AllEntries(a) + AllEntries(init)) + OwnedBy(last);
      assert AllEntries(b) == AllEntries(init) + OwnedBy(last);
    }
  }

  /** Some entry of the user cannot be formatted. */
  predicate Offends(u: User) {
    TargetV6(u.userid).None? && exists j | 0 <= j < |u.ports| :: NeedsFormatting(u.ports[j])
  }

  lemma {:induction false} OffendsIff(users: seq<User>)
    ensures (exists k :: 0 <= k < |AllEntries(users)| && Unformattable(AllEntries(users)[k])) <==>
            exists i :: 0 <= i < |users| && Offends(users[i])
  {
    if users != [] {
      var init, last := users[..|users| - 1], users[|users| - 1];
      OffendsIff(init);
      var before, own := AllEntries(init), OwnedBy(last);
      assert AllEntries(users) == before + own;
      assert forall i :: 0 <= i < |init| ==> users[i] == init[i];
      assert forall k :: 0 <= k < |before| ==> (before + own)[k] == before[k];
      assert forall j :: 0 <= j < |own| ==> (before + own)[|before| + j] == own[j];
      assert forall k :: |before| <= k < |before + own| ==> (before + own)[k] == own[k - |before|];
    }
  }

  lemma RenderIsFaithful(nft: Nft, c: Config, p: Packet)
    ensures Faithful(nft, Render(c), c, p)
  {
    var os := AllEntries(c.users);
    AcceptChain(nft, os, p);
    DnatChain(nft, os, p);
    RedirectionIsFirst(nft, os, p);
    BulkChain(nft, c, p);
    EvaluateAppend(nft, BulkRules(c), DnatRules(os), p);
    if BulkPacket(p) && BulkOn(c, p) {
      assert RedirectedTo(nft, c, p, BulkTarget(c, p));
    } else {
      if Redirection(nft, os, p).Some? {
        assert RedirectedTo(nft, c, p, Redirection(nft, os, p).value);
      }
      forall t | RedirectedTo(nft, c, p, t) ensures Redirection(nft, os, p) == Some(t) {
        var k :| FirstRedirect(nft, os, p, k) && t == TargetOf(os[k]);
        var l :| FirstRedirect(nft, os, p, l) && Redirection(nft, os, p).value == TargetOf(os[l]);
        FirstRedirectUnique(nft, os, p, k, l);
      }
    }
  }
}
