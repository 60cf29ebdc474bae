/**
 What the port engine stores and reads, apart from rules: users and their
 fields, the switches, keys of entries, and the texts of tunnel addresses.
 */
module FirewallStored {
  import opened Firewall
  import opened FirewallRuns
  import opened Lists
  import opened Options
  import opened Text

  // ----- One user's fields

  /** The user's place in the dictionary. */
  ghost predicate FirstAt(users: seq<User>, name: string, i: int) {
    0 <= i < |users| && users[i].name == name && forall j :: 0 <= j < i ==> users[j].name != name
  }

  /** Looking up a field finds the user of that name. */
  lemma {:induction false} UserFound(users: seq<User>, name: string, i: int)
    requires FirstAt(users, name, i)
    ensures HasUser(users, name)
    ensures PortsOf(users, name) == users[i].ports && RemoteIpOf(users, name) == users[i].vpnRemoteIp
    ensures UserIdOf(users, name) == users[i].userid
  {
    if i > 0 {
      assert FirstAt(users[1..], name, i - 1);
      UserFound(users[1..], name, i - 1);
    }
  }

  /** Replacing one touches that field of that user only. */
  lemma {:induction false} UserChanged(users: seq<User>, name: string, i: int, ports: seq<Entry>, ip: string)
    requires FirstAt(users, name, i)
    ensures SetPorts(users, name, ports) == users[i := User(name, users[i].userid, users[i].vpnRemoteIp, ports)]
    ensures SetRemoteIp(users, name, ip) == users[i := User(name, users[i].userid, ip, users[i].ports)]
  {
    if i > 0 {
      assert FirstAt(users[1..], name, i - 1);
      UserChanged(users[1..], name, i - 1, ports, ip);
    }
  }

  /** The primary user is the one with the service's own name, or a user without id, address and entries. */
  lemma {:induction false} PrimaryIs(users: seq<User>)
    ensures forall i :: FirstAt(users, "openmptcprouter", i) ==> PrimaryUser(users) == users[i]
    ensures (forall i :: 0 <= i < |users| ==> users[i].name != "openmptcprouter") ==>
              PrimaryUser(users) == User("openmptcprouter", Missing, "", [])
  {
    if users != [] {
      PrimaryIs(users[1..]);
      forall i | FirstAt(users, "openmptcprouter", i) ensures PrimaryUser(users) == users[i] {
        if i > 0 { assert FirstAt(users[1..], "openmptcprouter", i - 1); }
      }
    }
  }

  // ----- Runs

  /** The user's address after a run: the last one posted, where an empty one counts for nothing. */
  function PostedIp(ip: string, ops: seq<Op>, name: string): string {
    if ops == [] then ip
    else
      match ops[|ops| - 1]
      case VpnIps(user, posted) =>
        if user == name && posted != "" then posted else PostedIp(ip, ops[..|ops| - 1], name)
      case _ => PostedIp(ip, ops[..|ops| - 1], name)
  }

  /** A family's bulk switch after a run: its last position. */
  function Switched(on: bool, ops: seq<Op>, family: Family): bool {
    if ops == [] then on
    else
      match ops[|ops| - 1]
      case Bulk(f, position) => if f == family then position else Switched(on, ops[..|ops| - 1], family)
      case _ => Switched(on, ops[..|ops| - 1], family)
  }

  function Names(users: seq<User>): (r: seq<string>)
    ensures |r| == |users| && forall i :: 0 <= i < |r| ==> r[i] == users[i].name
  {
    seq(|users|, i requires 0 <= i < |users| => users[i].name)
  }

  lemma {:induction false} SetKeepsFields(users: seq<User>, name: string, ports: seq<Entry>, ip: string, n: string)
    ensures RemoteIpOf(SetRemoteIp(users, name, ip), n) == if n == name && HasUser(users, n) then ip else RemoteIpOf(users, n)
    ensures RemoteIpOf(SetPorts(users, name, ports), n) == RemoteIpOf(users, n)
    ensures Names(SetPorts(users, name, ports)) == Names(users) == Names(SetRemoteIp(users, name, ip))
  {
    if users != [] {
      SetKeepsFields(users[1..], name, ports, ip, n);
      HasUserStep(users, n);
      var p, r := SetPorts(users, name, ports), SetRemoteIp(users, name, ip);
      assert Names(users) == [users[0].name] + Names(users[1..]);
      assert p[1..] == if users[0].name == name then users[1..] else SetPorts(users[1..], name, ports);
      assert r[1..] == if users[0].name == name then users[1..] else SetRemoteIp(users[1..], name, ip);
      assert Names(p) == [p[0].name] + Names(p[1..]) && Names(r) == [r[0].name] + Names(r[1..]);
    }
  }

  lemma StepStores(c: Config, op: Op, name: string)
    requires HasUser(c.users, name)
    ensures var after := NextConfig(c, op);
            && HasUser(after.users, name) && Names(after.users) == Names(c.users)
            && UserIdOf(after.users, name) == UserIdOf(c.users, name)
            && RemoteIpOf(after.users, name) ==
               if op.VpnIps? && op.user == name && op.ip != "" then op.ip else RemoteIpOf(c.users, name)
  {
    var user, ip := if op.Bulk? then "" else op.user, if op.VpnIps? then op.ip else "";
    var ports := match op
                 case OpenPort(_, e) => Open(PortsOf(c.users, user), e)
                 case ClosePort(_, key) => Close(PortsOf(c.users, user), key)
                 case _ => [];
    SetKeepsFields(c.users, user, ports, ip, name);
    SetKeepsUsers(c.users, user, ports, ip, name);
    EditsKeepIds(c.users, user, ports, ip, name);
  }

  lemma StepSwitches(c: Config, op: Op)
    ensures NextConfig(c, op).bulkV4 == if op.Bulk? && op.family == V4 then op.on else c.bulkV4
    ensures NextConfig(c, op).bulkV6 == if op.Bulk? && op.family == V6 then op.on else c.bulkV6
  {
  }

  /**
   Over every run: each user's address is the last one that user posted, each bulk switch is in the
   last position of its family, and names and ids never change.
   */
  lemma {:induction false} RunStores(s: Live, ops: seq<Op>, name: string)
    requires HasUser(s.config.users, name)
    ensures var c, after := s.config, Run(s, ops).config;
            && HasUser(after.users, name) && Names(after.users) == Names(c.users)
            && UserIdOf(after.users, name) == UserIdOf(c.users, name)
            && RemoteIpOf(after.users, name) == PostedIp(RemoteIpOf(c.users, name), ops, name)
            && after.bulkV4 == Switched(c.bulkV4, ops, V4) && after.bulkV6 == Switched(c.bulkV6, ops, V6)
  {
    if ops != [] {
      var init, last := ops[..|ops| - 1], ops[|ops| - 1];
      RunStores(s, init, name);
      StepStores(Run(s, init).config, last, name);
      StepSwitches(Run(s, init).config, last);
    }
  }

  // ----- Entries

  /** Entries have the same key exactly when the seven fields a close names agree. */
  lemma KeyOfIff(a: Entry, b: Entry)
    ensures KeyOf(a) == KeyOf(b) <==>
            && a.name == b.name && a.port == b.port && a.proto == b.proto && a.fwtype == b.fwtype && a.family == b.family
            && a.sourceDip == b.sourceDip && a.destIp == b.destIp
  {
  }

  /** An edit leaves only entries that open or redirect; a request for anything else is ignored. */
  lemma EditsLeaveSupported(c: Config, user: string, e: Entry, key: PortKey, x: Entry)
    ensures e.fwtype != Some("ACCEPT") && e.fwtype != Some("DNAT") ==> NextConfig(c, OpenPort(user, e)) == c
    ensures HasUser(c.users, user) && (e.fwtype == Some("ACCEPT") || e.fwtype == Some("DNAT")) ==>
              var ports := PortsOf(NextConfig(c, OpenPort(user, e)).users, user);
              e in ports && (x in ports ==> x.fwtype == Some("ACCEPT") || x.fwtype == Some("DNAT"))
    ensures HasUser(c.users, user) ==>
              (x in PortsOf(NextConfig(c, ClosePort(user, key)).users, user) <==>
               x in PortsOf(c.users, user) && KeyOf(x) != key && (x.fwtype == Some("ACCEPT") || x.fwtype == Some("DNAT")))
  {
    var ports := PortsOf(c.users, user);
    SetKeepsUsers(c.users, user, Open(ports, e), "", user);
    SetKeepsUsers(c.users, user, Close(ports, key), "", user);
    FilterMembers(ports, IsSupported);
    FilterMembers(Supported(ports), OtherThan(KeyOf(e)));
    FilterMembers(ports, SupportedOtherThan(key));
  }

  // ----- Texts of addresses

  function DigitOf(c: char): nat {
    if '0' <= c <= '9' then c as nat - '0' as nat else if 'a' <= c <= 'f' then c as nat - 'a' as nat + 10 else 0
  }

  predicate IsHex(s: string) {
    s != "" && forall i | 0 <= i < |s| :: '0' <= s[i] <= '9' || 'a' <= s[i] <= 'f'
  }

  /** The number a lower-case hexadecimal text stands for. */
  function ReadHex(s: string): nat {
    if s == "" then 0 else 16 * ReadHex(s[..|s| - 1]) + DigitOf(s[|s| - 1])
  }

  lemma {:induction false} HexReadsBack(n: nat)
    ensures IsHex(Hex(n)) && ReadHex(Hex(n)) == n
    ensures Hex(n)[0] == '0' <==> n == 0
  {
    if n < 16 {
      assert Hex(n) == [HexDigit(n)] && [HexDigit(n)][..0] == "";
      assert ReadHex("") == 0;
    } else {
      HexReadsBack(n / 16);
      assert Hex(n)[..|Hex(n)| - 1] == Hex(n / 16);
    }
  }

  /** The IPv6 tunnel address spells the user's id in hexadecimal between a fixed front and end; a missing id counts as 0. */
  lemma TunnelAddress(userid: UserId)
    ensures userid == Missing || userid == Textual("") ==> TargetV6(userid) == TargetV6(Numeric(0))
    ensures userid.Numeric? ==>
              exists digits :: IsHex(digits) && ReadHex(digits) == userid.id && (digits[0] == '0' ==> userid.id == 0)
                && TargetV6(userid) == Some("fd00::a0" + digits + ":2")
    ensures userid.Textual? && userid.text != "" ==> TargetV6(userid) == None
  {
    if userid.Numeric? {
      HexReadsBack(userid.id);
      assert IsHex(Hex(userid.id));
    }
  }

  /** Where a redirection goes: the entry's own VPN address, else the user's tunnel address of the entry's family. */
  lemma RedirectionTarget(u: User, e: Entry)
    ensures e.vpn != "default" ==> TargetOf(Owned(u, e)) == e.vpn
    ensures e.vpn == "default" && e.family == 4 ==> TargetOf(Owned(u, e)) == u.vpnRemoteIp
    ensures e.vpn == "default" && e.family != 4 && TargetV6(u.userid).Some? ==> Some(TargetOf(Owned(u, e))) == TargetV6(u.userid)
  {
  }

  /** For instance: posting a new address moves bob's IPv4 redirection there. */
  lemma PostedInstance(nft: Nft, p: Packet)
    requires p.family == V4 && p.proto == "tcp" && nft.portIn("80", p.dport)
    ensures var e := Entry("web", "80", "tcp", Some("DNAT"), 4, "", "", "default", "");
            var s := Live(Config([User("bob", Numeric(3), "10.255.252.2", [e])], false, false), Chains([], []));
            var after := Run(s, [VpnIps("bob", "10.255.252.6")]);
            Evaluate(nft, after.chains.dnat, p) == Some(Dnat("10.255.252.6"))
  {
    var e := Entry("web", "80", "tcp", Some("DNAT"), 4, "", "", "default", "");
    var bob, moved := User("bob", Numeric(3), "10.255.252.2", [e]), User("bob", Numeric(3), "10.255.252.6", [e]);
    var s := Live(Config([bob], false, false), Chains([], []));
    var op := VpnIps("bob", "10.255.252.6");
    assert FirstAt([bob], "bob", 0);
    UserFound([bob], "bob", 0);
    UserChanged([bob], "bob", 0, [], "10.255.252.6");
    assert "10.255.252.2"[11] != "10.255.252.6"[11];
    assert [op][..0] == [] && Run(s, []) == s && Run(s, [op]) == Step(s, op);
    assert [bob][0 := moved] == [moved];
    OneRedirection(nft, moved, e, p);
  }

  lemma OneRedirection(nft: Nft, u: User, e: Entry, p: Packet)
    requires u.ports == [e] && e.fwtype == Some("DNAT") && e.family == 4 && e.vpn == "default" && u.vpnRemoteIp != ""
    requires EntryMatches(nft, e, p)
    ensures var c := Config([u], false, false);
            Compile(c).Some? && Evaluate(nft, Compile(c).value.dnat, p) == Some(Dnat(u.vpnRemoteIp))
  {
    var c := Config([u], false, false);
    assert [u][..0] == [] && AllEntries([]) == [] && AllEntries([u]) == [] + OwnedBy(u) == [Owned(u, e)];
    RenderingIsFaithful(nft, c, p);
    assert FirstRedirect(nft, AllEntries(c.users), p, 0);
    assert RedirectedTo(nft, c, p, u.vpnRemoteIp);
  }
}
