/**
 Runs of the operations that edit the stored port lists: opening and closing
 ports, the bulk switches and the tunnel address of a user. Each one rewrites
 the configuration and resynchronises the live chains.
 */
module FirewallRuns {
  import opened Firewall
  import opened Lists
  import opened Options

  datatype PortKey = PortKey(name: string, port: string, proto: string, fwtype: Option<string>, family: int,
                             sourceDip: string, destIp: string)

  function KeyOf(e: Entry): PortKey {
    PortKey(e.name, e.port, e.proto, e.fwtype, e.family, e.sourceDip, e.destIp)
  }

  predicate IsSupported(e: Entry) {
    e.fwtype == Some("ACCEPT") || e.fwtype == Some("DNAT")
  }

  function Supported(ports: seq<Entry>): seq<Entry> {
    Filter(ports, IsSupported)
  }

  function OtherThan(key: PortKey): Entry -> bool {
    e => KeyOf(e) != key
  }

  function SupportedOtherThan(key: PortKey): Entry -> bool {
    e => KeyOf(e) != key && IsSupported(e)
  }

  function WithoutKey(ports: seq<Entry>, key: PortKey): seq<Entry> {
    Filter(ports, OtherThan(key))
  }

  ghost predicate UniqueKeys(ports: seq<Entry>) {
    forall i, j :: 0 <= i < j < |ports| ==> KeyOf(ports[i]) != KeyOf(ports[j])
  }

  // ----- One list

  /** The list after opening a port; an entry that is already there, in a clean list, changes nothing. */
  function Open(ports: seq<Entry>, e: Entry): seq<Entry> {
    if e in ports && Supported(ports) == ports then ports
    else WithoutKey(Supported(ports), KeyOf(e)) + [e]
  }

  function Close(ports: seq<Entry>, key: PortKey): seq<Entry> {
    Filter(ports, SupportedOtherThan(key))
  }

  /** The entries of a list by key. */
  function Table(ports: seq<Entry>): map<PortKey, Entry> {
    if ports == [] then map[] else Table(ports[..|ports| - 1])[KeyOf(ports[|ports| - 1]) := ports[|ports| - 1]]
  }

  /** Only supported entries count: the others render nothing and are dropped by the next edit. */
  function SupportedTable(ports: seq<Entry>): map<PortKey, Entry> {
    Table(Supported(ports))
  }

  lemma {:induction false} FilterUnique(ports: seq<Entry>, keep: Entry -> bool)
    requires UniqueKeys(ports)
    ensures UniqueKeys(Filter(ports, keep))
  {
    if ports != [] {
      FilterUnique(ports[1..], keep);
      FilterMembers(ports[1..], keep);
      var rest := Filter(ports[1..], keep);
      forall j | 0 <= j < |rest| ensures KeyOf(rest[j]) != KeyOf(ports[0]) {
        assert rest[j] in ports[1..];
        var k :| 0 <= k < |ports[1..]| && ports[1..][k] == rest[j];
        assert ports[k + 1] == rest[j];
      }
    }
  }

  lemma {:induction false} TableMembers(ports: seq<Entry>)
    requires UniqueKeys(ports)
    ensures forall e :: e in ports ==> KeyOf(e) in Table(ports) && Table(ports)[KeyOf(e)] == e
    ensures forall k :: k in Table(ports) ==> Table(ports)[k] in ports && KeyOf(Table(ports)[k]) == k
  {
    if ports != [] {
      var init, last := ports[..|ports| - 1], ports[|ports| - 1];
      TableMembers(init);
      assert ports == init + [last];
    }
  }

  /** A keyed list is determined as a table by its members. */
  lemma SameMembersSameTable(a: seq<Entry>, m: map<PortKey, Entry>)
    requires UniqueKeys(a)
    requires forall e :: e in a <==> KeyOf(e) in m && m[KeyOf(e)] == e
    requires forall k :: k in m ==> KeyOf(m[k]) == k
    ensures Table(a) == m
  {
    TableMembers(a);
    forall k | k in m ensures k in Table(a) { assert m[k] in a; }
  }

  /** A keyed list without one key, followed by an entry of that key. */
  lemma ReplaceKey(clean: seq<Entry>, e: Entry)
    requires UniqueKeys(clean) && IsSupported(e) && forall x :: x in clean ==> IsSupported(x)
    ensures var after := WithoutKey(clean, KeyOf(e)) + [e];
            && UniqueKeys(after)
            && Supported(after) == after
            && Table(after) == Table(clean)[KeyOf(e) := e]
            && WithoutKey(after, KeyOf(e)) == WithoutKey(clean, KeyOf(e))
  {
    var key := KeyOf(e);
    var others := WithoutKey(clean, key);
    var after := others + [e];
    FilterUnique(clean, OtherThan(key));
    FilterMembers(clean, OtherThan(key));
    FilterIdentity(after, IsSupported);
    TableMembers(clean);
    forall x ensures x in after <==> KeyOf(x) in Table(clean)[key := e] && Table(clean)[key := e][KeyOf(x)] == x {
    }
    SameMembersSameTable(after, Table(clean)[key := e]);
    FilterAppend(others, [e], OtherThan(key));
    FilterIdentity(others, OtherThan(key));
  }

  /** Opening is a last-write-wins update of the table; keys stay unique and the others keep their order. */
  lemma OpenUpdates(ports: seq<Entry>, e: Entry)
    requires UniqueKeys(ports) && IsSupported(e)
    ensures UniqueKeys(Open(ports, e))
    ensures SupportedTable(Open(ports, e)) == SupportedTable(ports)[KeyOf(e) := e]
    ensures WithoutKey(Supported(Open(ports, e)), KeyOf(e)) == WithoutKey(Supported(ports), KeyOf(e))
  {
    FilterUnique(ports, IsSupported);
    FilterMembers(ports, IsSupported);
    if e in ports && Supported(ports) == ports {
      TableMembers(ports);
    } else {
      ReplaceKey(Supported(ports), e);
    }
  }

  /** Opening again what was just opened is a no-op. */
  lemma OpenIdempotent(ports: seq<Entry>, e: Entry)
    requires UniqueKeys(ports) && IsSupported(e)
    ensures Open(Open(ports, e), e) == Open(ports, e)
  {
    FilterUnique(ports, IsSupported);
    FilterMembers(ports, IsSupported);
    if !(e in ports && Supported(ports) == ports) { ReplaceKey(Supported(ports), e); }
  }

  /** Closing removes exactly the key from the table; the others keep their order. */
  lemma CloseRemoves(ports: seq<Entry>, key: PortKey)
    requires UniqueKeys(ports)
    ensures UniqueKeys(Close(ports, key))
    ensures SupportedTable(Close(ports, key)) == SupportedTable(ports) - {key}
    ensures Supported(Close(ports, key)) == WithoutKey(Supported(ports), key)
  {
    var clean, after := Supported(ports), Close(ports, key);
    FilterUnique(ports, IsSupported);
    FilterMembers(ports, IsSupported);
    FilterUnique(ports, SupportedOtherThan(key));
    FilterMembers(ports, SupportedOtherThan(key));
    FilterIdentity(after, IsSupported);
    FilterTwice(ports, IsSupported, OtherThan(key), SupportedOtherThan(key));
    TableMembers(clean);
    SameMembersSameTable(after, Table(clean) - {key});
  }

  // ----- The configuration

  predicate HasUser(users: seq<User>, name: string) {
    exists i | 0 <= i < |users| :: users[i].name == name
  }

  function PortsOf(users: seq<User>, name: string): seq<Entry> {
    if users == [] then [] else if users[0].name == name then users[0].ports else PortsOf(users[1..], name)
  }

  function RemoteIpOf(users: seq<User>, name: string): string {
    if users == [] then "" else if users[0].name == name then users[0].vpnRemoteIp else RemoteIpOf(users[1..], name)
  }

  function SetPorts(users: seq<User>, name: string, ports: seq<Entry>): seq<User> {
    if users == [] then []
    else if users[0].name == name then [users[0].(ports := ports)] + users[1..]
    else [users[0]] + SetPorts(users[1..], name, ports)
  }

  function SetRemoteIp(users: seq<User>, name: string, ip: string): seq<User> {
    if users == [] then []
    else if users[0].name == name then [users[0].(vpnRemoteIp := ip)] + users[1..]
    else [users[0]] + SetRemoteIp(users[1..], name, ip)
  }

  datatype Op =
    | OpenPort(user: string, entry: Entry)
    | ClosePort(user: string, key: PortKey)
    | Bulk(family: Family, on: bool)
    | VpnIps(user: string, ip: string)

  function NextConfig(c: Config, op: Op): Config {
    match op
    case OpenPort(user, e) =>
      if IsSupported(e) then c.(users := SetPorts(c.users, user, Open(PortsOf(c.users, user), e))) else c
    case ClosePort(user, key) => c.(users := SetPorts(c.users, user, Close(PortsOf(c.users, user), key)))
    case Bulk(family, on) => if family == V4 then c.(bulkV4 := on) else c.(bulkV6 := on)
    case VpnIps(user, ip) => if ip != "" then c.(users := SetRemoteIp(c.users, user, ip)) else c
  }

  /** Whether the operation goes on to resynchronise the chains. */
  predicate Resyncs(c: Config, op: Op) {
    match op
    case OpenPort(user, e) => IsSupported(e) && HasUser(c.users, user)
      && !(e in PortsOf(c.users, user) && Supported(PortsOf(c.users, user)) == PortsOf(c.users, user))
    case ClosePort(user, key) => HasUser(c.users, user) && Close(PortsOf(c.users, user), key) != PortsOf(c.users, user)
    case Bulk(_, _) => true
    case VpnIps(user, ip) => HasUser(c.users, user) && ip != "" && RemoteIpOf(c.users, user) != ip
  }

  /** The live chains after a resynchronisation whose two nft transactions have these outcomes. */
  function Resynced(chains: Chains, c: Config, acceptOk: bool, dnatOk: bool): Chains {
    match Compile(c)
    case None => chains
    case Some(r) => Chains(if acceptOk then r.accept else chains.accept, if acceptOk && dnatOk then r.dnat else chains.dnat)
  }

  class Engine {
    var config: Config
    var chains: Chains

    method SyncPorts(acceptOk: bool, dnatOk: bool)
      modifies this`chains
      ensures chains == Resynced(old(chains), config, acceptOk, dnatOk)
    {
      var raised, accept, dnat := RenderFwPorts(config.users);
      if raised || (config.bulkV6 && TargetV6(PrimaryUser(config.users).userid).None?) {
        return;
      }
      dnat := BulkRules(config) + dnat;
      if acceptOk {
        chains := chains.(accept := accept);
        if dnatOk {
          chains := chains.(dnat := dnat);
        }
      }
    }

    /** Perform one operation; `acceptOk` and `dnatOk` are the outcomes of the two nft transactions. */
    method Perform(op: Op, acceptOk: bool, dnatOk: bool)
      modifies this
      ensures Live(config, chains) == StepWith(Live(old(config), old(chains)), op, acceptOk, dnatOk)
      ensures acceptOk && dnatOk && Current(Live(old(config), old(chains))) ==> Current(Live(config, chains))
    {
      if !Resyncs(config, op) { NoResyncNoChange(config, op); }
      match op
      case OpenPort(user, e) =>
        if !IsSupported(e) { return; }
        SetMissing(config.users, user, Open(PortsOf(config.users, user), e), "");
        if !HasUser(config.users, user) { return; }
        var ports := PortsOf(config.users, user);
        var supported := Supported(ports);
        if e in ports && supported == ports {
          SetSame(config.users, user);
          return;
        }
        var kept := WithoutKey(supported, KeyOf(e));
        config := config.(users := SetPorts(config.users, user, kept + [e]));
        SyncPorts(acceptOk, dnatOk);
      case ClosePort(user, key) =>
        SetMissing(config.users, user, Close(PortsOf(config.users, user), key), "");
        if !HasUser(config.users, user) { return; }
        var ports := PortsOf(config.users, user);
        var newPorts := Close(ports, key);
        if newPorts != ports {
          config := config.(users := SetPorts(config.users, user, newPorts));
          SyncPorts(acceptOk, dnatOk);
        } else {
          SetSame(config.users, user);
        }
      case Bulk(family, on) =>
        config := if family == V4 then config.(bulkV4 := on) else config.(bulkV6 := on);
        SyncPorts(acceptOk, dnatOk);
      case VpnIps(user, ip) =>
        if ip == "" { return; }
        SetMissing(config.users, user, [], ip);
        if !HasUser(config.users, user) { return; }
        if RemoteIpOf(config.users, user) != ip {
          config := config.(users := SetRemoteIp(config.users, user, ip));
          SyncPorts(acceptOk, dnatOk);
        } else {
          SetSame(config.users, user);
        }
    }
  }

  lemma {:induction false} SetMissing(users: seq<User>, name: string, ports: seq<Entry>, ip: string)
    ensures !HasUser(users, name) ==> SetPorts(users, name, ports) == users && SetRemoteIp(users, name, ip) == users
  {
    if users != [] && !HasUser(users, name) {
      assert users[0].name != name;
      forall i | 0 <= i < |users[1..]| ensures users[1..][i].name != name { assert users[1..][i] == users[i + 1]; }
      SetMissing(users[1..], name, ports, ip);
    }
  }

  lemma {:induction false} SetSame(users: seq<User>, name: string)
    ensures SetPorts(users, name, PortsOf(users, name)) == users
    ensures SetRemoteIp(users, name, RemoteIpOf(users, name)) == users
  {
    if users != [] { SetSame(users[1..], name); }
  }

  /** An operation that does not resynchronise has changed nothing. */
  lemma NoResyncNoChange(c: Config, op: Op)
    requires !Resyncs(c, op)
    ensures NextConfig(c, op) == c
  {
    match op
    case OpenPort(user, e) =>
      SetMissing(c.users, user, Open(PortsOf(c.users, user), e), "");
      SetSame(c.users, user);
    case ClosePort(user, key) =>
      SetMissing(c.users, user, Close(PortsOf(c.users, user), key), "");
      SetSame(c.users, user);
    case VpnIps(user, ip) =>
      SetMissing(c.users, user, [], ip);
      SetSame(c.users, user);
    case _ =>
  }

  // ----- Steps and runs

  datatype Live = Live(config: Config, chains: Chains)

  /** One operation with the outcomes of its two nft transactions. */
  function StepWith(s: Live, op: Op, acceptOk: bool, dnatOk: bool): Live {
    var c := NextConfig(s.config, op);
    Live(c, if Resyncs(s.config, op) then Resynced(s.chains, c, acceptOk, dnatOk) else s.chains)
  }

  function Step(s: Live, op: Op): Live {
    StepWith(s, op, true, true)
  }

  function Run(s: Live, ops: seq<Op>): Live {
    if ops == [] then s else Step(Run(s, ops[..|ops| - 1]), ops[|ops| - 1])
  }

  /** What a run does to the port table of one user. */
  function RunTable(table: map<PortKey, Entry>, ops: seq<Op>, name: string): map<PortKey, Entry> {
    if ops == [] then table
    else
      var t := RunTable(table, ops[..|ops| - 1], name);
      match ops[|ops| - 1]
      case OpenPort(user, e) => if user == name && IsSupported(e) then t[KeyOf(e) := e] else t
      case ClosePort(user, key) => if user == name then t - {key} else t
      case _ => t
  }

  ghost predicate AllUniqueKeys(users: seq<User>) {
    forall name :: UniqueKeys(PortsOf(users, name))
  }

  lemma {:induction false} SetKeepsUsers(users: seq<User>, name: string, ports: seq<Entry>, ip: string, n: string)
    ensures HasUser(SetPorts(users, name, ports), n) <==> HasUser(users, n)
    ensures HasUser(SetRemoteIp(users, name, ip), n) <==> HasUser(users, n)
    ensures PortsOf(SetPorts(users, name, ports), n) == if n == name && HasUser(users, n) then ports else PortsOf(users, n)
    ensures PortsOf(SetRemoteIp(users, name, ip), n) == PortsOf(users, n)
  {
    if users != [] {
      SetKeepsUsers(users[1..], name, ports, ip, n);
      HasUserStep(users, n);
      HasUserStep(SetPorts(users, name, ports), n);
      HasUserStep(SetRemoteIp(users, name, ip), n);
      if users[0].name == name {
        assert SetPorts(users, name, ports)[1..] == users[1..];
        assert SetRemoteIp(users, name, ip)[1..] == users[1..];
      } else {
        assert SetPorts(users, name, ports)[1..] == SetPorts(users[1..], name, ports);
        assert SetRemoteIp(users, name, ip)[1..] == SetRemoteIp(users[1..], name, ip);
      }
    }
  }

  lemma HasUserStep(users: seq<User>, n: string)
    requires users != []
    ensures HasUser(users, n) <==> users[0].name == n || HasUser(users[1..], n)
  {
    if HasUser(users[1..], n) {
      var i :| 0 <= i < |users[1..]| && users[1..][i].name == n;
      assert users[i + 1].name == n;
    }
    if HasUser(users, n) && users[0].name != n {
      var i :| 0 <= i < |users| && users[i].name == n;
      assert users[1..][i - 1].name == n;
    }
  }

  /** The live chains are those the configuration compiles to, whenever it compiles. */
  ghost predicate Current(s: Live) {
    Compile(s.config).Some? ==> s.chains == Compile(s.config).value
  }

  ghost predicate Inv(s: Live) {
    AllUniqueKeys(s.config.users) && Current(s)
  }

  lemma StepOpen(c: Config, user: string, e: Entry, n: string)
    requires AllUniqueKeys(c.users)
    ensures var before, after := PortsOf(c.users, n), PortsOf(NextConfig(c, OpenPort(user, e)).users, n);
            && UniqueKeys(after)
            && (HasUser(NextConfig(c, OpenPort(user, e)).users, n) <==> HasUser(c.users, n))
            && (HasUser(c.users, n) ==>
                  SupportedTable(after) ==
                  if user == n && IsSupported(e) then SupportedTable(before)[KeyOf(e) := e] else SupportedTable(before))
  {
    SetKeepsUsers(c.users, user, Open(PortsOf(c.users, user), e), "", n);
    if IsSupported(e) { OpenUpdates(PortsOf(c.users, user), e); }
  }

  lemma StepClose(c: Config, user: string, key: PortKey, n: string)
    requires AllUniqueKeys(c.users)
    ensures var before, after := PortsOf(c.users, n), PortsOf(NextConfig(c, ClosePort(user, key)).users, n);
            && UniqueKeys(after)
            && (HasUser(NextConfig(c, ClosePort(user, key)).users, n) <==> HasUser(c.users, n))
            && (HasUser(c.users, n) ==>
                  SupportedTable(after) == if user == n then SupportedTable(before) - {key} else SupportedTable(before))
  {
    SetKeepsUsers(c.users, user, Close(PortsOf(c.users, user), key), "", n);
    CloseRemoves(PortsOf(c.users, user), key);
  }

  /** One operation on one user's ports: keys stay unique and the table is updated as described. */
  lemma StepPorts(c: Config, op: Op, n: string)
    requires AllUniqueKeys(c.users)
    ensures UniqueKeys(PortsOf(NextConfig(c, op).users, n))
    ensures HasUser(NextConfig(c, op).users, n) <==> HasUser(c.users, n)
    ensures HasUser(c.users, n) ==>
              SupportedTable(PortsOf(NextConfig(c, op).users, n)) == RunTable(SupportedTable(PortsOf(c.users, n)), [op], n)
  {
    assert [op][..0] == [];
    match op
    case OpenPort(user, e) => StepOpen(c, user, e, n);
    case ClosePort(user, key) => StepClose(c, user, key, n);
    case VpnIps(user, ip) => SetKeepsUsers(c.users, user, [], ip, n);
    case _ =>
  }

  lemma StepInvariant(s: Live, op: Op)
    requires Inv(s)
    ensures Inv(Step(s, op))
  {
    forall n ensures UniqueKeys(PortsOf(NextConfig(s.config, op).users, n)) { StepPorts(s.config, op, n); }
    if !Resyncs(s.config, op) { NoResyncNoChange(s.config, op); }
  }

  /**
   Over every run of opens, closes, bulk switches and address changes, of users with any ids, keys
   stay unique, the live chains are the compiled stored configuration whenever that compiles, and
   each user's list behaves as a table in which the last write to a key wins.
   */
  lemma {:induction false} RunInvariant(s: Live, ops: seq<Op>, name: string)
    requires Inv(s) && HasUser(s.config.users, name)
    ensures Inv(Run(s, ops)) && HasUser(Run(s, ops).config.users, name)
    ensures SupportedTable(PortsOf(Run(s, ops).config.users, name))
            == RunTable(SupportedTable(PortsOf(s.config.users, name)), ops, name)
  {
    if ops != [] {
      var init, last := ops[..|ops| - 1], ops[|ops| - 1];
      RunInvariant(s, init, name);
      StepInvariant(Run(s, init), last);
      StepPorts(Run(s, init).config, last, name);
      assert [last][..0] == [];
    }
  }

  lemma {:induction false} RunCurrent(s: Live, ops: seq<Op>)
    requires Current(s)
    ensures Current(Run(s, ops))
  {
    if ops != [] {
      var init, last := ops[..|ops| - 1], ops[|ops| - 1];
      RunCurrent(s, init);
      if !Resyncs(Run(s, init).config, last) { NoResyncNoChange(Run(s, init).config, last); }
    }
  }

  /** So after every run to a configuration that compiles, each packet gets the verdict read from it. */
  lemma RunVerdicts(nft: Nft, s: Live, ops: seq<Op>, p: Packet)
    requires Current(s)
    ensures Compile(Run(s, ops).config).Some? ==> Faithful(nft, Run(s, ops).chains, Run(s, ops).config, p)
  {
    RunCurrent(s, ops);
    RenderingIsFaithful(nft, Run(s, ops).config, p);
  }

  /** The last point of a run at which the stored configuration compiled. */
  function LastCompiled(s: Live, ops: seq<Op>): (k: nat)
    ensures k <= |ops|
  {
    if ops == [] || Compile(Run(s, ops).config).Some? then |ops| else LastCompiled(s, ops[..|ops| - 1])
  }

  /** A run that starts with its chains in place ends with those of the last configuration that compiled. */
  lemma {:induction false} RunShowsLastCompiled(s: Live, ops: seq<Op>)
    requires Compile(s.config) == Some(s.chains)
    ensures Compile(Run(s, ops[..LastCompiled(s, ops)]).config) == Some(Run(s, ops).chains)
  {
    if ops == [] || Compile(Run(s, ops).config).Some? {
      RunCurrent(s, ops);
      assert ops[..|ops|] == ops;
    } else {
      var init := ops[..|ops| - 1];
      RunShowsLastCompiled(s, init);
      assert ops[..LastCompiled(s, ops)] == init[..LastCompiled(s, init)];
    }
  }

  // ----- When rendering raises

  function UserIdOf(users: seq<User>, name: string): UserId {
    if users == [] then Missing else if users[0].name == name then users[0].userid else UserIdOf(users[1..], name)
  }

  /** The request asks for an address to be formatted from an id stored as text. */
  predicate Freezes(c: Config, op: Op) {
    match op
    case OpenPort(user, e) =>
      HasUser(c.users, user) && NeedsFormatting(e) && TargetV6(UserIdOf(c.users, user)).None?
    case Bulk(family, on) => family == V6 && on && TargetV6(PrimaryUser(c.users).userid).None?
    case _ => false
  }

  predicate AnyOffends(users: seq<User>) {
    exists i | 0 <= i < |users| :: Offends(users[i])
  }

  lemma AnyOffendsStep(users: seq<User>)
    requires users != []
    ensures AnyOffends(users) <==> Offends(users[0]) || AnyOffends(users[1..])
  {
    assert forall i :: 0 <= i < |users[1..]| ==> users[1..][i] == users[i + 1];
    assert forall i :: 0 < i < |users| ==> users[i] == users[1..][i - 1];
  }

  predicate AnyNeeds(ports: seq<Entry>) {
    exists j | 0 <= j < |ports| :: NeedsFormatting(ports[j])
  }

  lemma {:induction false} SetPortsOffends(users: seq<User>, name: string, ports: seq<Entry>)
    requires !AnyOffends(users)
    ensures AnyOffends(SetPorts(users, name, ports)) <==>
            HasUser(users, name) && TargetV6(UserIdOf(users, name)).None? && AnyNeeds(ports)
  {
    if users != [] {
      AnyOffendsStep(users);
      HasUserStep(users, name);
      var after := SetPorts(users, name, ports);
      AnyOffendsStep(after);
      if users[0].name == name {
        assert after[1..] == users[1..];
      } else {
        SetPortsOffends(users[1..], name, ports);
        assert after[1..] == SetPorts(users[1..], name, ports);
      }
    }
  }

  lemma {:induction false} SetRemoteIpOffends(users: seq<User>, name: string, ip: string)
    ensures AnyOffends(SetRemoteIp(users, name, ip)) <==> AnyOffends(users)
  {
    if users != [] {
      AnyOffendsStep(users);
      var after := SetRemoteIp(users, name, ip);
      AnyOffendsStep(after);
      if users[0].name == name {
        assert after[1..] == users[1..];
      } else {
        SetRemoteIpOffends(users[1..], name, ip);
        assert after[1..] == SetRemoteIp(users[1..], name, ip);
      }
    }
  }

  /** In a list that offends nowhere, a user with an unformattable id has no entry that needs formatting. */
  lemma {:induction false} OwnEntryOffends(users: seq<User>, name: string)
    ensures HasUser(users, name) && TargetV6(UserIdOf(users, name)).None? && AnyNeeds(PortsOf(users, name)) ==> AnyOffends(users)
  {
    if users != [] {
      AnyOffendsStep(users);
      HasUserStep(users, name);
      OwnEntryOffends(users[1..], name);
    }
  }

  lemma {:induction false} EditsKeepIds(users: seq<User>, name: string, ports: seq<Entry>, ip: string, n: string)
    ensures UserIdOf(SetPorts(users, name, ports), n) == UserIdOf(users, n) == UserIdOf(SetRemoteIp(users, name, ip), n)
    ensures PrimaryUser(SetPorts(users, name, ports)).userid == PrimaryUser(users).userid
    ensures PrimaryUser(SetRemoteIp(users, name, ip)).userid == PrimaryUser(users).userid
  {
    if users != [] {
      EditsKeepIds(users[1..], name, ports, ip, n);
      if users[0].name == name {
        assert SetPorts(users, name, ports)[1..] == users[1..];
        assert SetRemoteIp(users, name, ip)[1..] == users[1..];
      } else {
        assert SetPorts(users, name, ports)[1..] == SetPorts(users[1..], name, ports);
        assert SetRemoteIp(users, name, ip)[1..] == SetRemoteIp(users[1..], name, ip);
      }
    }
  }

  /** An edited list needs formatting when the old one does or the opened entry does. */
  lemma EditedNeeds(ports: seq<Entry>, e: Entry, key: PortKey)
    ensures AnyNeeds(Open(ports, e)) ==> AnyNeeds(ports) || NeedsFormatting(e)
    ensures NeedsFormatting(e) ==> AnyNeeds(Open(ports, e))
    ensures AnyNeeds(Close(ports, key)) ==> AnyNeeds(ports)
  {
    FilterMembers(ports, IsSupported);
    FilterMembers(Supported(ports), OtherThan(KeyOf(e)));
    FilterMembers(ports, SupportedOtherThan(key));
    assert AnyNeeds(ports) <==> exists x :: x in ports && NeedsFormatting(x);
    assert forall x :: x in Open(ports, e) ==> x in ports || x == e;
    assert e in Open(ports, e);
  }

  lemma OpenOffendsIff(users: seq<User>, user: string, e: Entry)
    requires !AnyOffends(users)
    ensures AnyOffends(SetPorts(users, user, Open(PortsOf(users, user), e))) <==>
            HasUser(users, user) && NeedsFormatting(e) && TargetV6(UserIdOf(users, user)).None?
  {
    SetPortsOffends(users, user, Open(PortsOf(users, user), e));
    EditedNeeds(PortsOf(users, user), e, KeyOf(e));
    OwnEntryOffends(users, user);
  }

  lemma CloseOffendsNot(users: seq<User>, user: string, key: PortKey)
    requires !AnyOffends(users)
    ensures !AnyOffends(SetPorts(users, user, Close(PortsOf(users, user), key)))
  {
    SetPortsOffends(users, user, Close(PortsOf(users, user), key));
    EditedNeeds(PortsOf(users, user), Entry("", "", "", None, 4, "", "", "", ""), key);
    OwnEntryOffends(users, user);
  }

  /** From a configuration that compiles, a request leads to one that does not exactly when it freezes. */
  lemma RaisesIff(c: Config, op: Op)
    requires Compile(c).Some?
    ensures Compile(NextConfig(c, op)).None? <==> Freezes(c, op)
  {
    var users := c.users;
    OffendsIff(users);
    OffendsIff(NextConfig(c, op).users);
    match op
    case OpenPort(user, e) =>
      EditsKeepIds(users, user, Open(PortsOf(users, user), e), "", user);
      if IsSupported(e) { OpenOffendsIff(users, user, e); }
    case ClosePort(user, key) =>
      EditsKeepIds(users, user, Close(PortsOf(users, user), key), "", user);
      CloseOffendsNot(users, user, key);
    case Bulk(family, on) =>
    case VpnIps(user, ip) =>
      SetRemoteIpOffends(users, user, ip);
      EditsKeepIds(users, user, [], ip, user);
  }

  /** The configuration compiles at every point of the run. */
  predicate AlwaysCompiles(s: Live, ops: seq<Op>) {
    Compile(Run(s, ops).config).Some? && (ops != [] ==> AlwaysCompiles(s, ops[..|ops| - 1]))
  }

  /** No request of the run freezes when it is made. */
  predicate NeverFreezes(s: Live, ops: seq<Op>) {
    ops != [] ==>
      !Freezes(Run(s, ops[..|ops| - 1]).config, ops[|ops| - 1]) && NeverFreezes(s, ops[..|ops| - 1])
  }

  /** A run never loses its compiled configuration exactly when none of its requests freezes. */
  lemma {:induction false} RunCompilesIff(s: Live, ops: seq<Op>)
    requires Compile(s.config).Some?
    ensures AlwaysCompiles(s, ops) <==> NeverFreezes(s, ops)
  {
    if ops != [] {
      var init := ops[..|ops| - 1];
      RunCompilesIff(s, init);
      if AlwaysCompiles(s, init) { RaisesIff(Run(s, init).config, ops[|ops| - 1]); }
    }
  }

  /** The request rewrites or removes the user's entry with this key. */
  predicate Touches(op: Op, name: string, key: PortKey) {
    match op
    case OpenPort(user, e) => user == name && KeyOf(e) == key
    case ClosePort(user, k) => user == name && k == key
    case _ => false
  }

  lemma EntryStays(ports: seq<Entry>, e: Entry, other: Entry, key: PortKey)
    requires e in ports && IsSupported(e)
    ensures KeyOf(other) != KeyOf(e) ==> e in Open(ports, other)
    ensures key != KeyOf(e) ==> e in Close(ports, key)
  {
    FilterMembers(ports, IsSupported);
    FilterMembers(Supported(ports), OtherThan(KeyOf(other)));
    FilterMembers(ports, SupportedOtherThan(key));
  }

  /** The user's id is stored as text and one of its entries needs it formatted. */
  ghost predicate Frozen(c: Config, name: string, e: Entry) {
    && HasUser(c.users, name) && TargetV6(UserIdOf(c.users, name)).None?
    && e in PortsOf(c.users, name) && NeedsFormatting(e)
  }

  lemma FrozenRaises(c: Config, name: string, e: Entry)
    requires Frozen(c, name, e)
    ensures Compile(c).None?
  {
    var j :| 0 <= j < |PortsOf(c.users, name)| && PortsOf(c.users, name)[j] == e;
    OwnEntryOffends(c.users, name);
    OffendsIff(c.users);
  }

  lemma FrozenStep(c: Config, op: Op, name: string, e: Entry)
    requires Frozen(c, name, e) && !Touches(op, name, KeyOf(e))
    ensures Frozen(NextConfig(c, op), name, e)
  {
    match op
    case OpenPort(user, other) =>
      var ports := Open(PortsOf(c.users, user), other);
      SetKeepsUsers(c.users, user, ports, "", name);
      EditsKeepIds(c.users, user, ports, "", name);
      if user == name { EntryStays(PortsOf(c.users, name), e, other, KeyOf(other)); }
    case ClosePort(user, key) =>
      var ports := Close(PortsOf(c.users, user), key);
      SetKeepsUsers(c.users, user, ports, "", name);
      EditsKeepIds(c.users, user, ports, "", name);
      if user == name && key != KeyOf(e) { EntryStays(PortsOf(c.users, name), e, e, key); }
    case VpnIps(user, ip) =>
      SetKeepsUsers(c.users, user, [], ip, name);
      EditsKeepIds(c.users, user, [], ip, name);
    case _ =>
  }

  /** While the entry stays, every request, by anybody, leaves the live chains as they were. */
  lemma {:induction false} FrozenRun(s: Live, ops: seq<Op>, name: string, e: Entry)
    requires Frozen(s.config, name, e)
    requires forall k :: 0 <= k < |ops| ==> !Touches(ops[k], name, KeyOf(e))
    ensures Frozen(Run(s, ops).config, name, e) && Run(s, ops).chains == s.chains
  {
    if ops != [] {
      var init, last := ops[..|ops| - 1], ops[|ops| - 1];
      FrozenRun(s, init, name, e);
      FrozenStep(Run(s, init).config, last, name, e);
      FrozenRaises(Run(s, ops).config, name, e);
    }
  }

  lemma OpenFreezes(c: Config, name: string, e: Entry)
    requires Freezes(c, OpenPort(name, e))
    ensures Frozen(NextConfig(c, OpenPort(name, e)), name, e)
  {
    var ports := Open(PortsOf(c.users, name), e);
    EditsKeepIds(c.users, name, ports, "", name);
    SetKeepsUsers(c.users, name, ports, "", name);
    assert e in ports;
  }

  lemma RunPair(s: Live, a: Op, b: Op)
    ensures Run(s, [a, b]) == Step(Step(s, a), b)
  {
    assert [a, b][..1] == [a] && [a][..0] == [];
    assert Run(s, []) == s;
    assert Run(s, [a]) == Step(s, a);
  }

  /** After a frozen open of an IPv6 redirection, the next request of anybody is stored but does not go live. */
  lemma FrozenNext(s: Live, name: string, e: Entry, next: Op)
    requires Freezes(s.config, OpenPort(name, e)) && !Touches(next, name, KeyOf(e))
    ensures var after := Run(s, [OpenPort(name, e), next]);
            && after.config == NextConfig(NextConfig(s.config, OpenPort(name, e)), next)
            && after.chains == s.chains && Compile(after.config).None?
  {
    var open := OpenPort(name, e);
    var first := NextConfig(s.config, open);
    OpenFreezes(s.config, name, e);
    FrozenRaises(first, name, e);
    FrozenStep(first, next, name, e);
    FrozenRaises(NextConfig(first, next), name, e);
    RunPair(s, open, next);
  }

  /**
   For instance, after an added user, whose id is stored as text, redirects an IPv6 port, the
   bulk switch should redirect every IPv6 port to the primary user but nothing is redirected.
   */
  lemma FrozenInstance(nft: Nft, p: Packet)
    requires p.family == V6 && BulkPacket(p)
    ensures var users := [User(PRIMARY_USER, Numeric(0), "", []), User("bob", Textual("3"), "", [])];
            var s := Live(Config(users, false, false), Chains([], []));
            var e := Entry("web", "80", "tcp", Some("DNAT"), 6, "", "", "default", "");
            var after := Run(s, [OpenPort("bob", e), Bulk(V6, true)]);
            && Inv(s) && Compile(s.config).Some?
            && RedirectedTo(nft, after.config, p, BulkTarget(after.config, p))
            && Evaluate(nft, after.chains.dnat, p) == None
  {
    var users := [User(PRIMARY_USER, Numeric(0), "", []), User("bob", Textual("3"), "", [])];
    var s := Live(Config(users, false, false), Chains([], []));
    var e := Entry("web", "80", "tcp", Some("DNAT"), 6, "", "", "default", "");
    NoEntries(users);
    assert PRIMARY_USER[0] == 'o' && "bob"[0] == 'b';
    assert users[1].name == "bob" && users[1..] == [users[1]];
    FrozenNext(s, "bob", e, Bulk(V6, true));
  }

  /** Without entries nothing is rendered, and nothing can fail. */
  lemma {:induction false} NoEntries(users: seq<User>)
    requires forall i :: 0 <= i < |users| ==> users[i].ports == []
    ensures AllEntries(users) == [] && AllUniqueKeys(users)
    ensures Compile(Config(users, false, false)) == Some(Chains([], []))
  {
    if users != [] {
      NoEntries(users[..|users| - 1]);
      assert OwnedBy(users[|users| - 1]) == [];
    }
    forall name ensures PortsOf(users, name) == [] { NoPorts(users, name); }
    assert BulkRules(Config(users, false, false)) == [];
  }

  lemma {:induction false} NoPorts(users: seq<User>, name: string)
    requires forall i :: 0 <= i < |users| ==> users[i].ports == []
    ensures PortsOf(users, name) == []
  {
    if users != [] { NoPorts(users[1..], name); }
  }

  // ----- When nft fails

  /**
   Whatever a resynchronisation left behind, an operation with both transactions succeeding puts
   the chains of a configuration that compiles in place exactly when it resynchronises, unless
   they were in place already. A bulk switch always does, also to the position it is in.
   */
  lemma RepairIff(s: Live, op: Op)
    requires Compile(NextConfig(s.config, op)).Some?
    ensures Current(StepWith(s, op, true, true)) <==> Resyncs(s.config, op) || Current(s)
    ensures op.Bulk? ==> Current(StepWith(s, op, true, true))
  {
    if !Resyncs(s.config, op) { NoResyncNoChange(s.config, op); }
  }

  /** Repeating an open never repairs a failed resynchronisation: the entry is stored, so nothing is done. */
  lemma RepeatedOpenRepairsNothing(s: Live, user: string, e: Entry, first: (bool, bool), again: (bool, bool))
    requires AllUniqueKeys(s.config.users)
    ensures var op := OpenPort(user, e);
            var once := StepWith(s, op, first.0, first.1);
            StepWith(once, op, again.0, again.1) == once
  {
    var op := OpenPort(user, e);
    var once := StepWith(s, op, first.0, first.1);
    if IsSupported(e) {
      SetKeepsUsers(s.config.users, user, Open(PortsOf(s.config.users, user), e), "", user);
      if HasUser(s.config.users, user) { OpenedIsClean(PortsOf(s.config.users, user), e); }
    }
    assert !Resyncs(once.config, op);
    NoResyncNoChange(once.config, op);
  }

  lemma OpenedIsClean(ports: seq<Entry>, e: Entry)
    requires UniqueKeys(ports) && IsSupported(e)
    ensures e in Open(ports, e) && Supported(Open(ports, e)) == Open(ports, e)
  {
    FilterUnique(ports, IsSupported);
    FilterMembers(ports, IsSupported);
    if !(e in ports && Supported(ports) == ports) { ReplaceKey(Supported(ports), e); }
  }

  // ----- Removing a user

  function RemoveUser(c: Config, i: nat): Config
    requires i < |c.users|
  {
    c.(users := c.users[..i] + c.users[i + 1..])
  }

  /** The entries of one user that render a rule. */
  function RulesOf(u: User): Chains {
    Chains(AcceptRules(OwnedBy(u)), DnatRules(OwnedBy(u)))
  }

  lemma {:induction false} RulesAppend(a: seq<Owned>, b: seq<Owned>)
    ensures AcceptRules(a + b) == AcceptRules(a) + AcceptRules(b)
    ensures DnatRules(a + b) == DnatRules(a) + DnatRules(b)
  {
    if b == [] {
      assert a + b == a;
    } else {
      var init := b[..|b| - 1];
      RulesAppend(a, init);
      assert (a + b)[..|a + b| - 1] == a + init;
    }
  }

  lemma {:induction false} PrimaryWithout(a: seq<User>, u: User, b: seq<User>)
    requires u.name != PRIMARY_USER
    ensures PrimaryUser(a + [u] + b) == PrimaryUser(a + b)
  {
    if a == [] {
      assert ([] + [u] + b)[1..] == b && [] + b == b;
    } else {
      PrimaryWithout(a[1..], u, b);
      assert (a + [u] + b)[1..] == a[1..] + [u] + b && (a + b)[1..] == a[1..] + b;
    }
  }

  /** The users are a dictionary: no two have the same name. */
  ghost predicate DistinctNames(users: seq<User>) {
    forall i, j :: 0 <= i < j < |users| ==> users[i].name != users[j].name
  }

  lemma {:induction false} NoPrimary(users: seq<User>)
    requires forall i :: 0 <= i < |users| ==> users[i].name != PRIMARY_USER
    ensures PrimaryUser(users) == User(PRIMARY_USER, Missing, "", [])
  {
    if users != [] { NoPrimary(users[1..]); }
  }

  /** Only the removal of the primary user changes whom the bulk switches redirect to. */
  lemma PrimaryAfterRemoval(c: Config, i: nat)
    requires i < |c.users| && DistinctNames(c.users)
    ensures PrimaryUser(RemoveUser(c, i).users) ==
            if c.users[i].name == PRIMARY_USER then User(PRIMARY_USER, Missing, "", []) else PrimaryUser(c.users)
  {
    var a, u, b := c.users[..i], c.users[i], c.users[i + 1..];
    assert c.users == a + [u] + b;
    if u.name == PRIMARY_USER {
      NoPrimary(a + b);
    } else {
      PrimaryWithout(a, u, b);
    }
  }

  /** Some user other than the i-th has an entry that cannot be formatted. */
  predicate OtherOffends(users: seq<User>, i: nat) {
    exists j | 0 <= j < |users| :: j != i && Offends(users[j])
  }

  lemma OffendsAfterRemoval(c: Config, i: nat)
    requires i < |c.users|
    ensures AnyOffends(RemoveUser(c, i).users) <==> OtherOffends(c.users, i)
  {
    var users, rest := c.users, RemoveUser(c, i).users;
    assert forall j :: 0 <= j < i ==> rest[j] == users[j];
    assert forall j :: i < j < |users| ==> users[j] == rest[j - 1];
    assert forall j :: i <= j < |rest| ==> rest[j] == users[j + 1];
  }

  /** What is left compiles exactly when no other user, and no bulk switch, needs a textual id formatted. */
  lemma RemovalCompilesIff(c: Config, i: nat)
    requires i < |c.users| && DistinctNames(c.users)
    ensures Compile(RemoveUser(c, i)).Some? <==>
            && !OtherOffends(c.users, i)
            && !(c.bulkV6 && c.users[i].name != PRIMARY_USER && TargetV6(PrimaryUser(c.users).userid).None?)
    ensures Compile(c).Some? ==> Compile(RemoveUser(c, i)).Some?
  {
    OffendsIff(c.users);
    OffendsIff(RemoveUser(c, i).users);
    OffendsAfterRemoval(c, i);
    PrimaryAfterRemoval(c, i);
    assert RenderRaises(c) <==> AnyOffends(c.users) || (c.bulkV6 && TargetV6(PrimaryUser(c.users).userid).None?);
    assert OtherOffends(c.users, i) ==> AnyOffends(c.users);
  }

  /** A removal adds no rule: the rules of the others stay, in order. */
  lemma RulesWithout(c: Config, i: nat)
    requires i < |c.users| && DistinctNames(c.users)
    ensures Render(c) == Render(RemoveUser(c, i)) <==>
            RulesOf(c.users[i]) == Chains([], []) && BulkRules(c) == BulkRules(RemoveUser(c, i))
    ensures c.users[i].name != PRIMARY_USER ==> BulkRules(c) == BulkRules(RemoveUser(c, i))
  {
    var a, u, b := c.users[..i], c.users[i], c.users[i + 1..];
    assert c.users == a + [u] + b;
    PrimaryAfterRemoval(c, i);
    RulesAround(a, u, b);
    var os, us := AllEntries(a), AllEntries(b);
    DropMiddle([], [], AcceptRules(os), RulesOf(u).accept, AcceptRules(us));
    DropMiddle(BulkRules(c), BulkRules(RemoveUser(c, i)), DnatRules(os), RulesOf(u).dnat, DnatRules(us));
  }

  /**
   Removing a user does not resynchronise: chains that were those of the configuration are right
   afterwards exactly when the user had no entry that renders a rule and, for the primary user,
   the bulk switches render as before.
   */
  lemma RemoveUserStaleIff(s: Live, i: nat)
    requires Compile(s.config) == Some(s.chains)
    requires i < |s.config.users| && DistinctNames(s.config.users)
    ensures var after := Live(RemoveUser(s.config, i), s.chains);
            && Compile(after.config).Some?
            && (Current(after) <==> RulesOf(s.config.users[i]) == Chains([], [])
                                    && BulkRules(s.config) == BulkRules(after.config))
    ensures s.config.users[i].name != PRIMARY_USER ==> BulkRules(s.config) == BulkRules(RemoveUser(s.config, i))
  {
    RemovalCompilesIff(s.config, i);
    RulesWithout(s.config, i);
  }

  /**
   After any run, frozen or not: where the removal leaves a configuration that compiles, the chains
   are right exactly when the last configuration of the run that compiled renders the same.
   */
  lemma RemoveAfterRunIff(s: Live, ops: seq<Op>, i: nat)
    requires Compile(s.config) == Some(s.chains)
    requires i < |Run(s, ops).config.users|
    requires Compile(RemoveUser(Run(s, ops).config, i)).Some?
    ensures var end, last := Run(s, ops), Run(s, ops[..LastCompiled(s, ops)]);
            Current(Live(RemoveUser(end.config, i), end.chains)) <==>
            Render(RemoveUser(end.config, i)) == Render(last.config)
  {
    RunShowsLastCompiled(s, ops);
  }

  lemma DropMiddle<T>(front: seq<T>, less: seq<T>, a: seq<T>, middle: seq<T>, b: seq<T>)
    requires |less| <= |front|
    ensures front + (a + middle + b) == less + (a + b) <==> middle == [] && front == less
    ensures [] + (a + middle + b) == a + middle + b && [] + (a + b) == a + b
  {
    var long, short := front + (a + middle + b), less + (a + b);
    if long == short {
      assert |long| == |front| + |a| + |middle| + |b| && |short| == |less| + |a| + |b|;
      assert long[..|front|] == front && short[..|less|] == less;
    }
    if middle == [] { assert a + middle + b == a + b; }
  }

  lemma RulesAround(a: seq<User>, u: User, b: seq<User>)
    ensures AcceptRules(AllEntries(a + [u] + b)) ==
            AcceptRules(AllEntries(a)) + RulesOf(u).accept + AcceptRules(AllEntries(b))
    ensures DnatRules(AllEntries(a + [u] + b)) ==
            DnatRules(AllEntries(a)) + RulesOf(u).dnat + DnatRules(AllEntries(b))
    ensures AcceptRules(AllEntries(a + b)) == AcceptRules(AllEntries(a)) + AcceptRules(AllEntries(b))
    ensures DnatRules(AllEntries(a + b)) == DnatRules(AllEntries(a)) + DnatRules(AllEntries(b))
  {
    assert [u][..0] == [] && AllEntries([u]) == [] + OwnedBy(u) == OwnedBy(u);
    EntriesAppend(a + [u], b);
    EntriesAppend(a, [u]);
    EntriesAppend(a, b);
    RulesAppend(AllEntries(a) + OwnedBy(u), AllEntries(b));
    RulesAppend(AllEntries(a), OwnedBy(u));
    RulesAppend(AllEntries(a), AllEntries(b));
  }

  lemma SingleOpen(u: User, e: Entry)
    requires u.ports == [e] && e.fwtype == Some("ACCEPT")
    ensures AllEntries([u]) == [Owned(u, e)]
    ensures AcceptRules([Owned(u, e)]) == [RuleOf(e, Accept)]
    ensures Compile(Config([u], false, false)).Some?
    ensures Render(Config([u], false, false)).accept == [RuleOf(e, Accept)]
  {
    assert [u][..0] == [] && AllEntries([]) == [];
    assert AllEntries([u]) == AllEntries([]) + OwnedBy(u) == [Owned(u, e)];
    assert [Owned(u, e)][..0] == [] && AcceptRules([]) == [];
    assert "ACCEPT"[0] != "DNAT"[0];
  }

  /** For instance, the opened port of a removed user stays open. */
  lemma StalePortInstance()
    ensures var e := Entry("ssh", "22", "tcp", Some("ACCEPT"), 4, "", "", "default", "");
            var c := Config([User("bob", Textual("3"), "", [e])], false, false);
            && Compile(c).Some? && Compile(RemoveUser(c, 0)) == Some(Chains([], []))
            && Compile(c).value.accept == [RuleOf(e, Accept)]
  {
    var e := Entry("ssh", "22", "tcp", Some("ACCEPT"), 4, "", "", "default", "");
    var bob := User("bob", Textual("3"), "", [e]);
    SingleOpen(bob, e);
    NoEntries([]);
    assert RemoveUser(Config([bob], false, false), 0).users == [];
  }

  lemma OpenFirst(e: Entry)
    ensures Open([], e) == [e]
  {
  }

  lemma TwoOpens(bob: User, alice: User, redirect: Entry, open: Entry)
    requires bob.ports == [] && alice.ports == [] && bob.name != alice.name
    requires IsSupported(redirect) && IsSupported(open)
    ensures var c := Config([bob, alice], false, false);
            NextConfig(NextConfig(c, OpenPort(bob.name, redirect)), OpenPort(alice.name, open))
            == Config([bob.(ports := [redirect]), alice.(ports := [open])], false, false)
  {
    var bob1, alice1 := bob.(ports := [redirect]), alice.(ports := [open]);
    OpenFirst(redirect);
    OpenFirst(open);
    assert [bob, alice][1..] == [alice] && [bob1, alice][1..] == [alice];
    assert SetPorts([bob, alice], bob.name, [redirect]) == [bob1, alice];
    assert SetPorts([alice], alice.name, [open]) == [alice1];
    assert PortsOf([bob1, alice], alice.name) == [];
    assert SetPorts([bob1, alice], alice.name, [open]) == [bob1, alice1];
  }

  /** A frozen open followed by anybody's open, and then the removal of the user who froze the chains. */
  lemma ThawedStale(bob: User, alice: User, redirect: Entry, open: Entry)
    requires bob.ports == [] && alice.ports == [] && bob.name != alice.name
    requires IsSupported(redirect) && NeedsFormatting(redirect) && TargetV6(bob.userid).None?
    requires open.fwtype == Some("ACCEPT")
    ensures var s := Live(Config([bob, alice], false, false), Chains([], []));
            var end := Run(s, [OpenPort(bob.name, redirect), OpenPort(alice.name, open)]);
            && Compile(s.config) == Some(s.chains)
            && end == Live(Config([bob.(ports := [redirect]), alice.(ports := [open])], false, false), Chains([], []))
            && Compile(RemoveUser(end.config, 0)).Some?
            && Render(RemoveUser(end.config, 0)).accept == [RuleOf(open, Accept)]
  {
    var s := Live(Config([bob, alice], false, false), Chains([], []));
    var stored := Config([bob.(ports := [redirect]), alice.(ports := [open])], false, false);
    assert Compile(s.config) == Some(s.chains) by { NoEntries([bob, alice]); }
    assert NextConfig(NextConfig(s.config, OpenPort(bob.name, redirect)), OpenPort(alice.name, open)) == stored by {
      TwoOpens(bob, alice, redirect, open);
    }
    assert Freezes(s.config, OpenPort(bob.name, redirect)) by { assert s.config.users[0].name == bob.name; }
    FrozenNext(s, bob.name, redirect, OpenPort(alice.name, open));
    FirstRemoved(stored, open);
  }

  lemma FirstRemoved(c: Config, open: Entry)
    requires |c.users| == 2 && c.users[1].ports == [open] && open.fwtype == Some("ACCEPT") && !c.bulkV4 && !c.bulkV6
    ensures Compile(RemoveUser(c, 0)).Some? && Render(RemoveUser(c, 0)).accept == [RuleOf(open, Accept)]
  {
    assert RemoveUser(c, 0) == Config([c.users[1]], false, false);
    SingleOpen(c.users[1], open);
  }

  lemma RedirectWithoutTarget(u: User, e: Entry)
    requires u.ports == [e] && NeedsFormatting(e) && TargetV6(u.userid).None?
    ensures RulesOf(u) == Chains([], [])
  {
    var os := OwnedBy(u);
    assert os == [Owned(u, e)] && os[..0] == [];
    assert AcceptRules([]) == [] && DnatRules([]) == [];
    assert "ACCEPT"[0] != "DNAT"[0];
  }

  /**
   For instance, bob's id is stored as text and his IPv6 redirection, which renders no rule, has
   frozen the chains when alice opens her port: removing bob thaws them without it.
   */
  lemma ThawedStaleInstance()
    ensures var bob, alice := User("bob", Textual("3"), "", []), User("alice", Numeric(1), "", []);
            var redirect := Entry("web", "80", "tcp", Some("DNAT"), 6, "", "", "default", "");
            var open := Entry("ssh", "22", "tcp", Some("ACCEPT"), 4, "", "", "default", "");
            var s := Live(Config([bob, alice], false, false), Chains([], []));
            var end := Run(s, [OpenPort("bob", redirect), OpenPort("alice", open)]);
            && Inv(s) && Compile(s.config) == Some(s.chains) && Current(end)
            && |end.config.users| == 2 && end.config.users[0] == bob.(ports := [redirect])
            && RulesOf(end.config.users[0]) == Chains([], [])
            && !Current(Live(RemoveUser(end.config, 0), end.chains))
            && RuleOf(open, Accept) !in end.chains.accept
            && RuleOf(open, Accept) in Render(RemoveUser(end.config, 0)).accept
  {
    var bob, alice := User("bob", Textual("3"), "", []), User("alice", Numeric(1), "", []);
    var redirect := Entry("web", "80", "tcp", Some("DNAT"), 6, "", "", "default", "");
    var open := Entry("ssh", "22", "tcp", Some("ACCEPT"), 4, "", "", "default", "");
    assert "bob"[0] != "alice"[0];
    ThawedStale(bob, alice, redirect, open);
    NoEntries([bob, alice]);
    RunCurrent(Live(Config([bob, alice], false, false), Chains([], [])), [OpenPort("bob", redirect), OpenPort("alice", open)]);
    RedirectWithoutTarget(bob.(ports := [redirect]), redirect);
  }
}
