/**
 LAN routes pushed to OpenVPN clients: `/lan` stores a user's LANs and, while
 client-to-client is on, rebuilds the push lines of `tun0.conf` from the LANs of
 all users; `/client2client` switches that on and off and keeps a directive in
 the same file. The file is a text with line feeds as line endings, as it is read.

 Parsing an address into network and netmask, and the order in which a set of
 routes is written out, are parameters.
 */
module LanRoutes {
  import opened Lists
  import opened Options
  import opened Text

  datatype Route = Route(network: string, netmask: string)

  /** Addresses are written with hexadecimal digits, dots and colons. */
  predicate AddressChar(c: char) {
    IsDigit(c) || 'a' <= c <= 'f' || c == '.' || c == ':'
  }

  predicate Plain(r: Route) {
    (forall i | 0 <= i < |r.network| :: AddressChar(r.network[i])) && (forall i | 0 <= i < |r.netmask| :: AddressChar(r.netmask[i]))
  }

  const PUSH := "push \"route "

  function Push(r: Route): string {
    PUSH + r.network + " " + r.netmask + "\""
  }

  function PushLine(r: Route): string {
    Push(r) + "\n"
  }

  function Names(r: Route): string -> bool {
    (line: string) => Contains(line, Push(r))
  }

  predicate NamesAny(line: string, routes: set<Route>) {
    exists r | r in routes :: Contains(line, Push(r))
  }

  function NamesNone(routes: set<Route>): string -> bool {
    (line: string) => !NamesAny(line, routes)
  }

  /**
   The environment: how a LAN is parsed, how a set of routes is sorted, and whether MQVPN is
   installed, whose stricter check then comes before everything else.
   */
  datatype Env = Env(net: string -> Option<Route>, order: set<Route> -> seq<Route>, mqvpn: bool, ipv4: string -> bool)

  ghost predicate Sane(env: Env) {
    && (forall lan :: env.net(lan).Some? ==> Plain(env.net(lan).value))
    && (forall routes :: Distinct(env.order(routes)) && forall r :: r in env.order(routes) <==> r in routes)
  }

  predicate Parses(env: Env, lans: seq<string>) {
    forall i | 0 <= i < |lans| :: env.net(lans[i]).Some?
  }

  function RoutesOf(env: Env, lans: seq<string>): set<Route> {
    set i | 0 <= i < |lans| && env.net(lans[i]).Some? :: env.net(lans[i]).value
  }

  predicate AllParse(env: Env, lanips: map<string, seq<string>>) {
    forall u | u in lanips :: Parses(env, lanips[u])
  }

  /** The routes of all users' stored LANs. */
  function Union(env: Env, lanips: map<string, seq<string>>): set<Route> {
    set u, r | u in lanips && r in RoutesOf(env, lanips[u]) :: r
  }

  /** A route is stored exactly when a LAN of some user parses to it. */
  lemma UnionIff(env: Env, lanips: map<string, seq<string>>, r: Route)
    ensures r in Union(env, lanips) <==> exists u, i :: u in lanips && 0 <= i < |lanips[u]| && env.net(lanips[u][i]) == Some(r)
  {
    if r in Union(env, lanips) {
      var u :| u in lanips && r in RoutesOf(env, lanips[u]);
      var i :| 0 <= i < |lanips[u]| && env.net(lanips[u][i]).Some? && env.net(lanips[u][i]).value == r;
    }
    if u, i :| u in lanips && 0 <= i < |lanips[u]| && env.net(lanips[u][i]) == Some(r) {
      assert env.net(lanips[u][i]).Some?;
      assert r in RoutesOf(env, lanips[u]);
    }
  }

  function PushLines(routes: seq<Route>): (r: seq<string>)
    ensures |r| == |routes| && forall i :: 0 <= i < |r| ==> r[i] == PushLine(routes[i])
  {
    seq(|routes|, i requires 0 <= i < |routes| => PushLine(routes[i]))
  }

  // ----- The file

  /** The lines of a text with their endings, as iterating over a file gives them. */
  function Lines(s: string): seq<string> {
    if s == "" then [] else [s[..LineEnd(s)]] + Lines(s[LineEnd(s)..])
  }

  function LineEnd(s: string): (n: nat)
    requires s != ""
    ensures 0 < n <= |s|
  {
    if Find(s, '\n') == |s| then |s| else Find(s, '\n') + 1
  }

  /** A text to which a new line can be appended. */
  predicate Ends(s: string) {
    s == "" || s[|s| - 1] == '\n'
  }

  /** The rewritten lines: those that name no managed route, then a line per desired route. */
  function Rebuild(env: Env, conf: seq<string>, desired: set<Route>, previous: set<Route>): seq<string> {
    Filter(conf, NamesNone(desired + previous)) + PushLines(env.order(desired))
  }

  /** The rewritten text. */
  function RebuildText(env: Env, conf: string, desired: set<Route>, previous: set<Route>): string {
    Join(Rebuild(env, Lines(conf), desired, previous))
  }

  const DIRECTIVE := "client-to-client"
  const DIRECTIVE_LINE := DIRECTIVE + "\n"

  function Directs(): string -> bool {
    (line: string) => Contains(line, DIRECTIVE)
  }

  function Undirected(): string -> bool {
    (line: string) => !Contains(line, DIRECTIVE)
  }

  /** The lines after switching client-to-client. */
  function Toggled(conf: seq<string>, on: bool): seq<string> {
    Filter(conf, Undirected()) + (if on then [DIRECTIVE_LINE] else [])
  }

  // ----- One call

  datatype State = State(lanips: map<string, seq<string>>, on: bool, conf: string)
  datatype Call = Lans(user: string, lans: seq<string>) | Toggle(enable: bool)

  /** The caller has an account. */
  predicate Known(s: State, c: Call) {
    c.Lans? ==> c.user in s.lanips
  }

  /** The check made when MQVPN is installed. */
  predicate Accepts(env: Env, lans: seq<string>) {
    env.mqvpn ==> forall i | 0 <= i < |lans| :: env.ipv4(lans[i])
  }

  /** Storing reaches the file: client-to-client is on, and every stored LAN parses, the user's former ones included. */
  predicate Rebuilds(env: Env, s: State, user: string, lans: seq<string>)
    requires user in s.lanips
  {
    s.on && AllParse(env, s.lanips[user := lans]) && Parses(env, s.lanips[user])
  }

  /** So it does exactly when the new LANs, the user's former ones and everybody else's all parse. */
  lemma RebuildsIff(env: Env, s: State, user: string, lans: seq<string>)
    requires user in s.lanips
    ensures Rebuilds(env, s, user, lans) <==>
            && s.on && (forall lan :: lan in lans || lan in s.lanips[user] ==> env.net(lan).Some?)
            && forall other, lan :: other in s.lanips && other != user && lan in s.lanips[other] ==> env.net(lan).Some?
  {
    var after := s.lanips[user := lans];
    assert user in after && after[user] == lans;
    if Rebuilds(env, s, user, lans) {
      forall other, lan | other in s.lanips && other != user && lan in s.lanips[other] ensures env.net(lan).Some? {
        assert other in after && Parses(env, after[other]);
      }
    }
  }

  /**
   One call. LANs are stored, and the file is then rebuilt unless client-to-client is off or some
   LAN fails to parse; switching client-to-client rewrites the directive only.
   */
  function Step(env: Env, s: State, c: Call): State
    requires Known(s, c)
  {
    match c
    case Toggle(enable) => State(s.lanips, enable, Join(Toggled(Lines(s.conf), enable)))
    case Lans(user, lans) =>
      if !Accepts(env, lans) then s
      else
        var lanips := s.lanips[user := lans];
        State(lanips, s.on,
              if Rebuilds(env, s, user, lans) then RebuildText(env, s.conf, Union(env, lanips), RoutesOf(env, s.lanips[user]))
              else s.conf)
  }

  datatype Reply = Rejected | Raised | Done

  /** Rewriting a file: the lines that pass, in order. */
  method Keep(conf: string, keep: string -> bool) returns (kept: seq<string>)
    ensures kept == Filter(Lines(conf), keep)
  {
    var lines := Lines(conf);
    kept := [];
    for i := 0 to |lines|
      invariant kept == Filter(lines[..i], keep)
    {
      assert lines[..i + 1] == lines[..i] + [lines[i]];
      FilterAppend(lines[..i], [lines[i]], keep);
      if keep(lines[i]) {
        kept := kept + [lines[i]];
      }
    }
    assert lines[..|lines|] == lines;
  }

  class Server {
    const env: Env
    var lanips: map<string, seq<string>>
    var client2client: bool
    var conf: Option<string>

    /** Store the user's LANs and rebuild the file; a LAN that does not parse raises between the two. */
    method Lan(user: string, lans: seq<string>) returns (reply: Reply)
      requires user in lanips
      modifies this
      ensures client2client == old(client2client) && (conf.Some? <==> old(conf).Some?)
      ensures reply == Rejected <==> env.mqvpn && exists lan :: lan in lans && !env.ipv4(lan)
      ensures lanips == if reply == Rejected then old(lanips) else old(lanips)[user := lans]
      ensures !(client2client && conf.Some?) ==> reply != Raised && conf == old(conf)
      ensures conf.Some? ==>
                var before := State(old(lanips), old(client2client), old(conf).value);
                && State(lanips, client2client, conf.value) == Step(env, before, Lans(user, lans))
                && (client2client ==> (reply == Done <==> Accepts(env, lans) && Rebuilds(env, before, user, lans)))
    {
      if !Accepts(env, lans) {
        return Rejected;
      }
      var previous := lanips[user];
      lanips := lanips[user := lans];
      if !client2client || conf.None? {
        return Done;
      }
      if !AllParse(env, lanips) || !Parses(env, previous) {
        return Raised;
      }
      var desired := Union(env, lanips);
      var kept := Keep(conf.value, NamesNone(desired + RoutesOf(env, previous)));
      conf := Some(Join(kept + PushLines(env.order(desired))));
      return Done;
    }

    /** Switch client-to-client. */
    method ClientToClient(enable: bool)
      modifies this
      ensures lanips == old(lanips) && client2client == enable && (conf.Some? <==> old(conf).Some?)
      ensures conf.Some? ==>
                State(lanips, client2client, conf.value) ==
                Step(env, State(old(lanips), old(client2client), old(conf).value), Toggle(enable))
    {
      client2client := enable;
      if conf.Some? {
        var kept := Keep(conf.value, Undirected());
        if enable {
          kept := kept + [DIRECTIVE_LINE];
        } else {
          assert kept + [] == kept;
        }
        conf := Some(Join(kept));
      }
    }
  }

  /** The text of a push line. */
  lemma PushText(r: Route)
    ensures PushLine(r) == "push \"route " + r.network + " " + r.netmask + "\"\n"
  {
  }

  // ----- A push line names its route only

  lemma PushAt(r: Route, i: nat)
    requires i < |PushLine(r)|
    ensures |Push(r)| == 12 + |r.network| + 1 + |r.netmask| + 1 && |PushLine(r)| == |Push(r)| + 1
    ensures i < 12 ==> PushLine(r)[i] == PUSH[i]
    ensures 12 <= i < 12 + |r.network| ==> PushLine(r)[i] == r.network[i - 12]
    ensures i == 12 + |r.network| ==> PushLine(r)[i] == ' '
    ensures 13 + |r.network| <= i < 13 + |r.network| + |r.netmask| ==> PushLine(r)[i] == r.netmask[i - 13 - |r.network|]
    ensures i == 13 + |r.network| + |r.netmask| ==> PushLine(r)[i] == '\"'
    ensures i == 14 + |r.network| + |r.netmask| ==> PushLine(r)[i] == '\n'
  {
  }

  /** The letter p opens a push line and does not come back. */
  lemma OnlyAtStart(r: Route, q: Route, k: nat)
    requires Plain(r) && OccursAt(Push(q), PushLine(r), k)
    ensures k == 0
  {
    PushAt(r, k);
    assert PushLine(r)[k] == Push(q)[0] == 'p';
    assert PUSH[1] == 'u' && PUSH[2] == 's' && PUSH[3] == 'h' && PUSH[4] == ' ' && PUSH[5] == '\"' && PUSH[6] == 'r';
    assert PUSH[7] == 'o' && PUSH[8] == 'u' && PUSH[9] == 't' && PUSH[10] == 'e' && PUSH[11] == ' ';
  }

  lemma SamePush(r: Route, q: Route)
    requires Plain(r) && Plain(q) && Push(q) <= PushLine(r)
    ensures r == q
  {
    var n, m := |r.network|, |q.network|;
    assert forall i :: 0 <= i < |Push(q)| ==> PushLine(q)[i] == Push(q)[i] == PushLine(r)[i];
    PushAt(q, 12 + m);
    PushAt(r, 12 + m);
    var i: nat := 12 + n;
    PushAt(r, i);
    if n < m { PushAt(q, i); }
    assert n == m;
    var a: nat, b: nat := 13 + n + |r.netmask|, 13 + n + |q.netmask|;
    PushAt(q, b);
    PushAt(r, b);
    PushAt(r, a);
    if a < b { PushAt(q, a); }
    assert a == b;
    assert Push(q) == PushLine(r)[..|Push(q)|] == Push(r);
    PushParts(r);
    PushParts(q);
  }

  lemma PushParts(r: Route)
    ensures |Push(r)| == 14 + |r.network| + |r.netmask|
    ensures Push(r)[12..12 + |r.network|] == r.network
    ensures Push(r)[13 + |r.network|..13 + |r.network| + |r.netmask|] == r.netmask
  {
    var head, mid := PUSH + r.network, PUSH + r.network + " ";
    assert |PUSH| == 12;
    assert Push(r) == mid + r.netmask + "\"";
    assert Push(r) == PUSH + r.network + (" " + r.netmask + "\"");
  }

  lemma PushLineNames(r: Route, q: Route)
    requires Plain(r) && Plain(q)
    ensures Contains(PushLine(r), Push(q)) <==> r == q
  {
    if r == q {
      assert OccursAt(Push(q), PushLine(r), 0);
    }
    if Contains(PushLine(r), Push(q)) {
      var k :| 0 <= k <= |PushLine(r)| - |Push(q)| && OccursAt(Push(q), PushLine(r), k);
      OnlyAtStart(r, q, k);
      SamePush(r, q);
    }
  }

  /** A push line is never taken for the directive. */
  lemma PushLineUndirected(r: Route)
    requires Plain(r)
    ensures !Contains(PushLine(r), DIRECTIVE)
  {
    if Contains(PushLine(r), DIRECTIVE) {
      var k :| 0 <= k <= |PushLine(r)| - |DIRECTIVE| && OccursAt(DIRECTIVE, PushLine(r), k);
      assert PushLine(r)[k..k + |DIRECTIVE|][1] == DIRECTIVE[1] == 'l';
      PushAt(r, k + 1);
      if k + 1 < 12 { PrefixHasNoL(k + 1); }
    }
  }

  lemma PrefixHasNoL(k: nat)
    requires k < 12
    ensures |PUSH| == 12 && PUSH[k] != 'l'
  {
  }

  /** And the directive names no route. */
  lemma DirectiveNamesNone(r: Route)
    ensures !Contains(DIRECTIVE_LINE, Push(r))
  {
    if Contains(DIRECTIVE_LINE, Push(r)) {
      var k :| 0 <= k <= |DIRECTIVE_LINE| - |Push(r)| && OccursAt(Push(r), DIRECTIVE_LINE, k);
      assert DIRECTIVE_LINE[k..k + |Push(r)|][0] == Push(r)[0] == 'p';
      DirectiveHasNoP(k);
    }
  }

  lemma DirectiveHasNoP(k: nat)
    requires k < 17
    ensures |DIRECTIVE_LINE| == 17 && DIRECTIVE_LINE[k] != 'p'
  {
  }

  lemma DirectiveDirects()
    ensures Contains(DIRECTIVE_LINE, DIRECTIVE) && Terminated(DIRECTIVE_LINE)
  {
    assert OccursAt(DIRECTIVE, DIRECTIVE_LINE, 0);
  }

  // ----- Agreement between stored LANs and pushed routes

  /** For every route of R: one line, its push line, if some user stores it, and no line otherwise. */
  ghost predicate Agrees(conf: seq<string>, routes: set<Route>, R: set<Route>) {
    forall r :: r in R ==> Filter(conf, Names(r)) == if r in routes then [PushLine(r)] else []
  }

  lemma {:induction false} PushLinesNaming(routes: seq<Route>, q: Route)
    requires Plain(q) && Distinct(routes) && forall r :: r in routes ==> Plain(r)
    ensures Filter(PushLines(routes), Names(q)) == if q in routes then [PushLine(q)] else []
  {
    if routes != [] {
      var rest := routes[1..];
      assert PushLines(routes)[1..] == PushLines(rest);
      assert routes == [routes[0]] + rest;
      PushLinesNaming(rest, q);
      PushLineNames(routes[0], q);
      assert routes[0] !in rest by {
        assert forall i :: 0 <= i < |rest| ==> rest[i] == routes[i + 1] != routes[0];
      }
      assert Filter(PushLines(routes), Names(q)) ==
             (if routes[0] == q then [PushLine(q)] else []) + Filter(PushLines(rest), Names(q));
    }
  }

  /** The lines naming a managed route are dropped; the push line of another route is kept. */
  lemma KeptNaming(conf: seq<string>, managed: set<Route>, r: Route)
    requires Plain(r) && forall q :: q in managed ==> Plain(q)
    ensures r in managed ==> Filter(Filter(conf, NamesNone(managed)), Names(r)) == []
    ensures r !in managed && Filter(conf, Names(r)) in [[], [PushLine(r)]] ==>
              Filter(Filter(conf, NamesNone(managed)), Names(r)) == Filter(conf, Names(r))
  {
    var kept := Filter(conf, NamesNone(managed));
    FilterMembers(conf, NamesNone(managed));
    if r in managed {
      FilterNothing(kept, Names(r));
    } else {
      FiltersCommute(conf, NamesNone(managed), Names(r));
      forall q | q in managed ensures !Contains(PushLine(r), Push(q)) { PushLineNames(r, q); }
      FilterIdentity([PushLine(r)], NamesNone(managed));
    }
  }

  /** A rebuild pushes the desired routes, and keeps pushing those that nobody asked to manage. */
  lemma RebuildPushes(env: Env, conf: seq<string>, pushed: set<Route>, desired: set<Route>, previous: set<Route>, R: set<Route>)
    requires Sane(env) && Agrees(conf, pushed, R)
    requires forall r :: r in R + desired + previous ==> Plain(r)
    ensures Agrees(Rebuild(env, conf, desired, previous), desired + (pushed - previous), R)
  {
    var managed := desired + previous;
    var kept := Filter(conf, NamesNone(managed));
    forall r | r in R
      ensures Filter(Rebuild(env, conf, desired, previous), Names(r)) ==
              if r in desired + (pushed - previous) then [PushLine(r)] else []
    {
      FilterAppend(kept, PushLines(env.order(desired)), Names(r));
      PushLinesNaming(env.order(desired), r);
      KeptNaming(conf, managed, r);
    }
  }

  /** Switching client-to-client leaves the pushed routes alone. */
  lemma TogglePushes(conf: seq<string>, on: bool, pushed: set<Route>, R: set<Route>)
    requires Agrees(conf, pushed, R) && forall r :: r in R ==> Plain(r)
    ensures Agrees(Toggled(conf, on), pushed, R)
  {
    forall r | r in R ensures Filter(Toggled(conf, on), Names(r)) == if r in pushed then [PushLine(r)] else [] {
      FilterAppend(Filter(conf, Undirected()), if on then [DIRECTIVE_LINE] else [], Names(r));
      DirectiveNamesNone(r);
      FiltersCommute(conf, Undirected(), Names(r));
      PushLineUndirected(r);
      FilterIdentity([PushLine(r)], Undirected());
    }
  }

  /** Every pushed line names its route. */
  lemma PushLinesNamed(env: Env, desired: set<Route>, R: set<Route>, line: string)
    requires Sane(env) && desired <= R && line in PushLines(env.order(desired))
    ensures NamesAny(line, R)
  {
    var lines := PushLines(env.order(desired));
    var i :| 0 <= i < |lines| && lines[i] == line;
    var r := env.order(desired)[i];
    assert r in desired && OccursAt(Push(r), line, 0);
    assert Contains(line, Push(r));
  }

  lemma PushLinesDropped(env: Env, desired: set<Route>, R: set<Route>)
    requires Sane(env) && desired <= R
    ensures Filter(PushLines(env.order(desired)), NamesNone(R)) == []
  {
    var lines := PushLines(env.order(desired));
    forall line | line in lines ensures NamesAny(line, R) { PushLinesNamed(env, desired, R, line); }
    FilterNothing(lines, NamesNone(R));
  }

  /** Neither a directive nor naming a route of R. */
  function Foreign(R: set<Route>): string -> bool {
    (line: string) => !NamesAny(line, R) && !Contains(line, DIRECTIVE)
  }

  /** Lines that name no route of R pass through, in order. */
  lemma RebuildKeepsForeign(env: Env, conf: seq<string>, desired: set<Route>, previous: set<Route>, R: set<Route>)
    requires Sane(env) && desired <= R && previous <= R
    ensures Filter(Rebuild(env, conf, desired, previous), NamesNone(R)) == Filter(conf, NamesNone(R))
    ensures Filter(Rebuild(env, conf, desired, previous), Foreign(R)) == Filter(conf, Foreign(R))
  {
    var managed, lines := desired + previous, PushLines(env.order(desired));
    FilterAppend(Filter(conf, NamesNone(managed)), lines, NamesNone(R));
    PushLinesDropped(env, desired, R);
    FilterTwice(conf, NamesNone(managed), NamesNone(R), NamesNone(R));
    FilterAppend(Filter(conf, NamesNone(managed)), lines, Foreign(R));
    forall line | line in lines ensures NamesAny(line, R) { PushLinesNamed(env, desired, R, line); }
    FilterNothing(lines, Foreign(R));
    FilterTwice(conf, NamesNone(managed), Foreign(R), Foreign(R));
  }

  lemma ToggleKeepsForeign(conf: seq<string>, on: bool, R: set<Route>)
    ensures Filter(Toggled(conf, on), Foreign(R)) == Filter(conf, Foreign(R))
  {
    FilterAppend(Filter(conf, Undirected()), if on then [DIRECTIVE_LINE] else [], Foreign(R));
    DirectiveDirects();
    FilterTwice(conf, Undirected(), Foreign(R), Foreign(R));
  }

  /** The file has the directive, on one line, exactly when client-to-client is on. */
  predicate Directed(conf: seq<string>, on: bool) {
    Filter(conf, Directs()) == if on then [DIRECTIVE_LINE] else []
  }

  lemma ToggleDirects(conf: seq<string>, on: bool)
    ensures Directed(Toggled(conf, on), on)
  {
    var kept := Filter(conf, Undirected());
    FilterAppend(kept, if on then [DIRECTIVE_LINE] else [], Directs());
    FilterMembers(conf, Undirected());
    FilterNothing(kept, Directs());
    DirectiveDirects();
  }

  lemma RebuildDirects(env: Env, conf: seq<string>, desired: set<Route>, previous: set<Route>, on: bool)
    requires Sane(env) && Directed(conf, on) && forall r :: r in desired ==> Plain(r)
    ensures Directed(Rebuild(env, conf, desired, previous), on)
  {
    var managed, lines := desired + previous, PushLines(env.order(desired));
    FilterAppend(Filter(conf, NamesNone(managed)), lines, Directs());
    FiltersCommute(conf, NamesNone(managed), Directs());
    forall r | r in managed ensures !Contains(DIRECTIVE_LINE, Push(r)) { DirectiveNamesNone(r); }
    FilterIdentity([DIRECTIVE_LINE], NamesNone(managed));
    forall line | line in lines ensures !Contains(line, DIRECTIVE) {
      var i :| 0 <= i < |lines| && lines[i] == line;
      assert env.order(desired)[i] in env.order(desired);
      PushLineUndirected(env.order(desired)[i]);
    }
    FilterNothing(lines, Directs());
  }

  lemma KeptStays(conf: seq<string>, managed: set<Route>, fewer: set<Route>)
    requires fewer <= managed
    ensures Filter(Filter(conf, NamesNone(managed)), NamesNone(fewer)) == Filter(conf, NamesNone(managed))
  {
    FilterTwice(conf, NamesNone(managed), NamesNone(fewer), NamesNone(managed));
  }

  /** Repeating the rebuild with nothing new leaves the file as it is. */
  lemma RebuildIdempotent(env: Env, conf: seq<string>, desired: set<Route>, previous: set<Route>, again: set<Route>)
    requires Sane(env) && again <= desired
    ensures var once := Rebuild(env, conf, desired, previous);
            Rebuild(env, once, desired, again) == once
  {
    var lines := PushLines(env.order(desired));
    var kept := Filter(conf, NamesNone(desired + previous));
    assert desired + again == desired;
    FilterAppend(kept, lines, NamesNone(desired));
    KeptStays(conf, desired + previous, desired);
    PushLinesDropped(env, desired, desired);
  }

  // ----- Lines and text

  /** A line with its ending and no other line feed. */
  predicate Terminated(line: string) {
    line != "" && line[|line| - 1] == '\n' && forall i :: 0 <= i < |line| - 1 ==> line[i] != '\n'
  }

  ghost predicate AllTerminated(lines: seq<string>) {
    forall i :: 0 <= i < |lines| ==> Terminated(lines[i])
  }

  lemma LinesCons(line: string, rest: string)
    requires Terminated(line)
    ensures Lines(line + rest) == [line] + Lines(rest)
  {
    var s := line + rest;
    FindIs(s, '\n', |line| - 1);
    assert s[..|line|] == line && s[|line|..] == rest;
  }

  lemma {:induction false} LinesOfJoin(lines: seq<string>, rest: string)
    requires AllTerminated(lines)
    ensures Lines(Join(lines) + rest) == lines + Lines(rest)
  {
    if lines == [] {
      assert "" + rest == rest;
    } else {
      LinesOfJoin(lines[1..], rest);
      Associate(lines[0], Join(lines[1..]), rest);
      LinesCons(lines[0], Join(lines[1..]) + rest);
      Associate([lines[0]], lines[1..], Lines(rest));
    }
  }

  lemma {:induction false} LinesTerminated(s: string)
    requires Ends(s)
    ensures AllTerminated(Lines(s))
  {
    if s != "" {
      var n := LineEnd(s);
      assert s[n..] != "" ==> s[n..][|s[n..]| - 1] == s[|s| - 1];
      LinesTerminated(s[n..]);
      assert Terminated(s[..n]);
    }
  }

  lemma {:induction false} JoinEnds(lines: seq<string>)
    requires AllTerminated(lines)
    ensures Ends(Join(lines))
  {
    if lines != [] {
      JoinEnds(lines[1..]);
      var rest := Join(lines[1..]);
      assert rest != "" ==> (lines[0] + rest)[|lines[0] + rest| - 1] == rest[|rest| - 1];
    }
  }

  lemma PushLinesTerminated(env: Env, desired: set<Route>)
    requires Sane(env) && forall r :: r in desired ==> Plain(r)
    ensures AllTerminated(PushLines(env.order(desired)))
  {
    var routes := env.order(desired);
    forall i | 0 <= i < |routes| ensures Terminated(PushLine(routes[i])) {
      assert routes[i] in routes;
      PlainPush(routes[i]);
    }
  }

  lemma PlainPush(r: Route)
    requires Plain(r)
    ensures Terminated(PushLine(r))
  {
    var line := PushLine(r);
    forall k: nat | k < |line| - 1 ensures line[k] != '\n' {
      PushAt(r, k);
      if k < 12 { PrefixHasNoFeed(k); }
    }
  }

  lemma PrefixHasNoFeed(k: nat)
    requires k < 12
    ensures |PUSH| == 12 && PUSH[k] != '\n'
  {
  }

  lemma KeptTerminated(lines: seq<string>, keep: string -> bool)
    requires AllTerminated(lines)
    ensures AllTerminated(Filter(lines, keep))
  {
    FilterMembers(lines, keep);
    forall i | 0 <= i < |Filter(lines, keep)| ensures Terminated(Filter(lines, keep)[i]) {
      assert Filter(lines, keep)[i] in lines;
    }
  }

  /** The rebuilt text of a file that ends in a line feed has the rebuilt lines, and ends in one too. */
  lemma LinesOfRebuild(env: Env, conf: string, desired: set<Route>, previous: set<Route>)
    requires Sane(env) && Ends(conf) && forall r :: r in desired ==> Plain(r)
    ensures Lines(RebuildText(env, conf, desired, previous)) == Rebuild(env, Lines(conf), desired, previous)
    ensures Ends(RebuildText(env, conf, desired, previous))
  {
    var lines := Rebuild(env, Lines(conf), desired, previous);
    LinesTerminated(conf);
    KeptTerminated(Lines(conf), NamesNone(desired + previous));
    PushLinesTerminated(env, desired);
    LinesOfWritten(lines);
  }

  lemma LinesOfWritten(lines: seq<string>)
    requires AllTerminated(lines)
    ensures Lines(Join(lines)) == lines && Ends(Join(lines))
  {
    JoinEnds(lines);
    LinesOfJoin(lines, "");
    assert Join(lines) + "" == Join(lines) && lines + [] == lines;
  }

  lemma LinesOfToggle(conf: string, on: bool)
    requires Ends(conf)
    ensures Lines(Join(Toggled(Lines(conf), on))) == Toggled(Lines(conf), on) && Ends(Join(Toggled(Lines(conf), on)))
  {
    LinesTerminated(conf);
    KeptTerminated(Lines(conf), Undirected());
    DirectiveDirects();
    LinesOfWritten(Toggled(Lines(conf), on));
  }

  /** The complete lines of a text and the rest. */
  function Cut(s: string): (p: (string, string))
    ensures Ends(p.0) && p.0 + p.1 == s && forall i :: 0 <= i < |p.1| ==> p.1[i] != '\n'
    ensures p.1 == "" <==> Ends(s)
  {
    if Ends(s) then (s, "") else
      var p := Cut(s[..|s| - 1]);
      assert s == s[..|s| - 1] + [s[|s| - 1]];
      (p.0, p.1 + [s[|s| - 1]])
  }

  lemma LastLine(x: string)
    requires x != "" && forall i :: 0 <= i < |x| ==> x[i] != '\n'
    ensures Lines(x) == [x]
  {
    assert Find(x, '\n') == |x|;
    assert x[..|x|] == x;
  }

  lemma {:induction false} JoinOfLines(s: string)
    ensures Join(Lines(s)) == s
  {
    if s != "" {
      JoinOfLines(s[LineEnd(s)..]);
      assert s == s[..LineEnd(s)] + s[LineEnd(s)..];
    }
  }

  lemma LinesOfCut(s: string)
    ensures Lines(s) == Lines(Cut(s).0) + Lines(Cut(s).1)
  {
    var (p, x) := Cut(s);
    LinesTerminated(p);
    JoinOfLines(p);
    LinesOfJoin(Lines(p), x);
  }

  lemma {:induction false} GluedLines(x: string, lines: seq<string>)
    requires lines != [] && AllTerminated(lines) && forall i :: 0 <= i < |x| ==> x[i] != '\n'
    ensures Lines(x + Join(lines)) == [x + lines[0]] + lines[1..]
  {
    var first, rest := lines[0], Join(lines[1..]);
    Associate(x, first, rest);
    assert (x + first)[|x + first| - 1] == '\n';
    LinesCons(x + first, rest);
    LinesOfJoin(lines[1..], "");
    assert rest + "" == rest && lines[1..] + [] == lines[1..];
  }

  /** Dropping directives changes nothing exactly where there is none. */
  lemma UndirectedIff(lines: seq<string>)
    ensures Filter(lines, Undirected()) == lines <==> Directed(lines, false)
  {
    FilterMembers(lines, Undirected());
    FilterMembers(lines, Directs());
    if Directed(lines, false) {
      forall line | line in lines ensures Undirected()(line) { assert !Directs()(line); }
      FilterIdentity(lines, Undirected());
    }
    if Filter(lines, Undirected()) == lines { FilterNothing(lines, Directs()); }
  }

  lemma AppendDirective(lines: seq<string>)
    ensures Join(lines + [DIRECTIVE_LINE]) == Join(lines) + "client-to-client\n"
  {
    JoinAppend(lines, [DIRECTIVE_LINE]);
    assert Join([DIRECTIVE_LINE]) == DIRECTIVE_LINE + Join([]);
    assert DIRECTIVE_LINE + "" == DIRECTIVE_LINE;
  }

  /** Switching on appends the directive to a file without it; switching on and off restores exactly such a file. */
  lemma SwitchRoundTripIff(env: Env, s: State)
    requires Ends(s.conf)
    ensures Directed(Lines(s.conf), false) ==> Step(env, s, Toggle(true)).conf == s.conf + "client-to-client\n"
    ensures Step(env, Step(env, s, Toggle(true)), Toggle(false)).conf == s.conf <==> Directed(Lines(s.conf), false)
  {
    SwitchOnAndOff(s.conf);
  }

  lemma SwitchOnAndOff(conf: string)
    requires Ends(conf)
    ensures var on := Join(Toggled(Lines(conf), true));
            && (Directed(Lines(conf), false) ==> on == conf + "client-to-client\n")
            && (Join(Toggled(Lines(on), false)) == conf <==> Directed(Lines(conf), false))
  {
    var lines := Lines(conf);
    LinesOfToggle(conf, true);
    SwitchedOff(lines);
    UndirectedIff(lines);
    JoinOfLines(conf);
    AppendDirective(lines);
    LinesTerminated(conf);
    KeptTerminated(lines, Undirected());
    LinesOfWritten(Filter(lines, Undirected()));
  }

  lemma SwitchedOff(lines: seq<string>)
    ensures Toggled(Toggled(lines, true), false) == Filter(lines, Undirected())
  {
    var kept := Filter(lines, Undirected());
    FilterAppend(kept, [DIRECTIVE_LINE], Undirected());
    FilterTwice(lines, Undirected(), Undirected(), Undirected());
    DirectiveDirects();
    assert Filter([DIRECTIVE_LINE], Undirected()) == [];
    assert kept + [] == kept;
  }

  /**
   The rebuilt file reads back as the lines written exactly when no kept line is left without its
   ending in front of a pushed one: the first pushed route would be glued to it.
   */
  lemma RebuildReadsBackIff(env: Env, conf: string, desired: set<Route>, previous: set<Route>)
    requires Sane(env) && forall r :: r in desired ==> Plain(r)
    ensures Lines(RebuildText(env, conf, desired, previous)) == Rebuild(env, Lines(conf), desired, previous) <==>
            Ends(conf) || NamesAny(Cut(conf).1, desired + previous) || desired == {}
  {
    var (p, x) := Cut(conf);
    if x == "" {
      LinesOfRebuild(env, conf, desired, previous);
    } else {
      var keep, pushes := NamesNone(desired + previous), PushLines(env.order(desired));
      LastLine(x);
      LinesOfCut(conf);
      FilterAppend(Lines(p), [x], keep);
      LinesTerminated(p);
      KeptTerminated(Lines(p), keep);
      PushLinesTerminated(env, desired);
      CutRebuild(Filter(Lines(p), keep), x, keep(x), pushes);
      assert Filter([x], keep) == if keep(x) then [x] else [];
      assert pushes == [] <==> desired == {} by { PushesNone(env, desired); }
    }
  }

  lemma PushesNone(env: Env, desired: set<Route>)
    requires Sane(env)
    ensures env.order(desired) == [] <==> desired == {}
  {
    var routes := env.order(desired);
    assert routes != [] ==> routes[0] in desired;
    if desired != {} {
      var r :| r in desired;
      assert r in routes;
    }
  }

  lemma CutRebuild(kept: seq<string>, x: string, keeps: bool, pushes: seq<string>)
    requires AllTerminated(kept) && AllTerminated(pushes)
    requires x != "" && forall i :: 0 <= i < |x| ==> x[i] != '\n'
    ensures var lines := kept + (if keeps then [x] else []) + pushes;
            Lines(Join(lines)) == lines <==> !keeps || pushes == []
  {
    if !keeps {
      assert kept + [] + pushes == kept + pushes;
      LinesOfJoin(kept + pushes, "");
      assert Join(kept + pushes) + "" == Join(kept + pushes) && kept + pushes + [] == kept + pushes;
    } else {
      JoinAppend(kept, [x] + pushes);
      Associate(kept, [x], pushes);
      assert ([x] + pushes)[1..] == pushes;
      LinesOfJoin(kept, x + Join(pushes));
      if pushes == [] {
        LastLine(x);
        assert x + Join(pushes) == x;
      } else {
        GluedLines(x, pushes);
        assert (kept + ([x] + pushes))[|kept|] == x;
        assert (kept + Lines(x + Join(pushes)))[|kept|] == x + pushes[0];
        assert |x + pushes[0]| > |x|;
      }
    }
  }

  /** For instance, a last line without its ending is glued to the pushed route, and lost with it by the next rebuild. */
  lemma UnterminatedLineIsLost(env: Env, x: string, r: Route)
    requires Sane(env) && Plain(r) && x != "" && (forall i :: 0 <= i < |x| ==> x[i] != '\n') && !Contains(x, Push(r))
    ensures var once := RebuildText(env, x, {r}, {});
            once == x + PushLine(r) && RebuildText(env, once, {r}, {r}) == PushLine(r)
  {
    var line, glued := PushLine(r), x + PushLine(r);
    SingleRoute(env, r);
    LastLine(x);
    PlainPush(r);
    assert {r} + {} == {r} == {r} + {r};
    assert Filter([x], NamesNone({r})) == [x];
    assert PushLines([r]) == [line] && Join([line]) == line;
    assert Join([x] + [line]) == glued;
    assert Lines(glued) == [glued] by {
      GluedLines(x, [line]);
      assert Join([line]) == line;
    }
    assert Contains(glued, Push(r)) by {
      assert glued[|x|..|x| + |Push(r)|] == Push(r);
      assert OccursAt(Push(r), glued, |x|);
    }
    assert Filter([glued], NamesNone({r})) == [];
    assert Join([] + [line]) == line;
  }

  lemma ConstantNotDistinct<T>(s: seq<T>, x: T)
    requires forall i :: 0 <= i < |s| ==> s[i] == x
    ensures |s| >= 2 ==> !Distinct(s)
  {
    if |s| >= 2 { assert s[0] == s[1]; }
  }

  lemma SingleRoute(env: Env, r: Route)
    requires Sane(env)
    ensures env.order({r}) == [r]
  {
    var routes := env.order({r});
    assert r in routes;
    forall i | 0 <= i < |routes| ensures routes[i] == r { assert routes[i] in routes; }
    ConstantNotDistinct(routes, r);
  }

  // ----- Runs

  /** Every call of the run is by a user with an account. */
  ghost predicate AllKnown(s: State, calls: seq<Call>) {
    forall k :: 0 <= k < |calls| ==> Known(s, calls[k])
  }

  function Run(env: Env, s: State, calls: seq<Call>): (r: State)
    requires AllKnown(s, calls)
    ensures r.lanips.Keys == s.lanips.Keys
  {
    if calls == [] then s else Step(env, Run(env, s, calls[..|calls| - 1]), calls[|calls| - 1])
  }

  /** The routes the file pushes after one call and after a run, from those it pushed before. */
  function PushedBy(env: Env, s: State, pushed: set<Route>, c: Call): set<Route>
    requires Known(s, c)
  {
    if c.Lans? && Accepts(env, c.lans) && Rebuilds(env, s, c.user, c.lans)
    then Union(env, s.lanips[c.user := c.lans]) + (pushed - RoutesOf(env, s.lanips[c.user]))
    else pushed
  }

  function Pushed(env: Env, s: State, pushed: set<Route>, calls: seq<Call>): set<Route>
    requires AllKnown(s, calls)
  {
    if calls == [] then pushed
    else
      var init := calls[..|calls| - 1];
      PushedBy(env, Run(env, s, init), Pushed(env, s, pushed, init), calls[|calls| - 1])
  }

  lemma UnionPlain(env: Env, lanips: map<string, seq<string>>)
    requires Sane(env)
    ensures forall r :: r in Union(env, lanips) ==> Plain(r)
  {
  }

  lemma UnionAfter(env: Env, lanips: map<string, seq<string>>, user: string, lans: seq<string>)
    requires user in lanips
    ensures Union(env, lanips) <= Union(env, lanips[user := lans]) + RoutesOf(env, lanips[user])
    ensures Union(env, lanips[user := lans]) <= Union(env, lanips) + RoutesOf(env, lans)
    ensures RoutesOf(env, lanips[user]) <= Union(env, lanips)
  {
    var after := lanips[user := lans];
    forall r | r in Union(env, lanips) ensures r in Union(env, after) + RoutesOf(env, lanips[user]) {
      var u :| u in lanips && r in RoutesOf(env, lanips[u]);
      if u != user { assert u in after && r in RoutesOf(env, after[u]); }
    }
    forall r | r in Union(env, after) ensures r in Union(env, lanips) + RoutesOf(env, lans) {
      var u :| u in after && r in RoutesOf(env, after[u]);
    }
  }

  lemma StepPushes(env: Env, s: State, pushed: set<Route>, c: Call, R: set<Route>)
    requires Sane(env) && Known(s, c) && (forall r :: r in R ==> Plain(r))
    requires Ends(s.conf) && Agrees(Lines(s.conf), pushed, R)
    ensures Ends(Step(env, s, c).conf) && Agrees(Lines(Step(env, s, c).conf), PushedBy(env, s, pushed, c), R)
  {
    match c
    case Toggle(enable) =>
      LinesOfToggle(s.conf, enable);
      TogglePushes(Lines(s.conf), enable, pushed, R);
    case Lans(user, lans) =>
      if Accepts(env, lans) && Rebuilds(env, s, user, lans) {
        var desired, previous := Union(env, s.lanips[user := lans]), RoutesOf(env, s.lanips[user]);
        UnionPlain(env, s.lanips[user := lans]);
        LinesOfRebuild(env, s.conf, desired, previous);
        RebuildPushes(env, Lines(s.conf), pushed, desired, previous, R);
      }
  }

  /**
   Over every run of stores and switches, whether or not the LANs parse, exactly the routes of
   `Pushed` are pushed, each by one line.
   */
  lemma {:induction false} RunPushes(env: Env, s: State, pushed: set<Route>, calls: seq<Call>, R: set<Route>)
    requires Sane(env) && (forall r :: r in R ==> Plain(r))
    requires Ends(s.conf) && Agrees(Lines(s.conf), pushed, R)
    requires AllKnown(s, calls)
    ensures Ends(Run(env, s, calls).conf) && Agrees(Lines(Run(env, s, calls).conf), Pushed(env, s, pushed, calls), R)
  {
    if calls != [] {
      var init, c := calls[..|calls| - 1], calls[|calls| - 1];
      RunPushes(env, s, pushed, init, R);
      assert Known(Run(env, s, init), c);
      StepPushes(env, Run(env, s, init), Pushed(env, s, pushed, init), c, R);
    }
  }

  lemma StepKeepsForeign(env: Env, s: State, c: Call, R: set<Route>)
    requires Sane(env) && Known(s, c) && Ends(s.conf)
    requires Union(env, s.lanips) <= R && (c.Lans? ==> RoutesOf(env, c.lans) <= R)
    ensures Union(env, Step(env, s, c).lanips) <= R && Ends(Step(env, s, c).conf)
    ensures Filter(Lines(Step(env, s, c).conf), Foreign(R)) == Filter(Lines(s.conf), Foreign(R))
  {
    match c
    case Toggle(enable) =>
      LinesOfToggle(s.conf, enable);
      ToggleKeepsForeign(Lines(s.conf), enable, R);
    case Lans(user, lans) =>
      var lanips := s.lanips[user := lans];
      var desired, previous := Union(env, lanips), RoutesOf(env, s.lanips[user]);
      UnionAfter(env, s.lanips, user, lans);
      if Accepts(env, lans) && Rebuilds(env, s, user, lans) {
        UnionPlain(env, lanips);
        LinesOfRebuild(env, s.conf, desired, previous);
        RebuildKeepsForeign(env, Lines(s.conf), desired, previous, R);
      }
  }

  /** Over every run, lines that are no directive and name no route the run touches keep their order. */
  lemma {:induction false} RunKeepsForeign(env: Env, s: State, calls: seq<Call>, R: set<Route>)
    requires Sane(env) && Ends(s.conf) && Union(env, s.lanips) <= R && AllKnown(s, calls)
    requires forall k :: 0 <= k < |calls| ==> (calls[k].Lans? ==> RoutesOf(env, calls[k].lans) <= R)
    ensures Union(env, Run(env, s, calls).lanips) <= R && Ends(Run(env, s, calls).conf)
    ensures Filter(Lines(Run(env, s, calls).conf), Foreign(R)) == Filter(Lines(s.conf), Foreign(R))
  {
    if calls != [] {
      var init, c := calls[..|calls| - 1], calls[|calls| - 1];
      RunKeepsForeign(env, s, init, R);
      assert Known(Run(env, s, init), c);
      StepKeepsForeign(env, Run(env, s, init), c, R);
    }
  }

  lemma StepDirects(env: Env, s: State, c: Call)
    requires Sane(env) && Known(s, c) && Ends(s.conf)
    requires c.Toggle? || Directed(Lines(s.conf), s.on)
    ensures Directed(Lines(Step(env, s, c).conf), Step(env, s, c).on)
  {
    match c
    case Toggle(enable) =>
      LinesOfToggle(s.conf, enable);
      ToggleDirects(Lines(s.conf), enable);
    case Lans(user, lans) =>
      if Accepts(env, lans) && Rebuilds(env, s, user, lans) {
        var desired, previous := Union(env, s.lanips[user := lans]), RoutesOf(env, s.lanips[user]);
        UnionPlain(env, s.lanips[user := lans]);
        LinesOfRebuild(env, s.conf, desired, previous);
        RebuildDirects(env, Lines(s.conf), desired, previous, s.on);
      }
  }

  /** Once client-to-client was switched, its directive is in the file, on one line, exactly while it is on. */
  lemma {:induction false} RunDirects(env: Env, s: State, calls: seq<Call>)
    requires Sane(env) && Ends(s.conf) && AllKnown(s, calls)
    requires Directed(Lines(s.conf), s.on) || exists k :: 0 <= k < |calls| && calls[k].Toggle?
    ensures Directed(Lines(Run(env, s, calls).conf), Run(env, s, calls).on)
  {
    if calls != [] {
      var init, c := calls[..|calls| - 1], calls[|calls| - 1];
      RunPushes(env, s, {}, init, {});
      assert Known(Run(env, s, init), c);
      if !c.Toggle? {
        assert forall k :: 0 <= k < |init| ==> init[k] == calls[k];
        RunDirects(env, s, init);
      }
      StepDirects(env, Run(env, s, init), c);
    }
  }

  /** A file agrees with two sets of routes exactly when they are the same within R. */
  lemma AgreesIff(conf: seq<string>, pushed: set<Route>, stored: set<Route>, R: set<Route>)
    requires Agrees(conf, pushed, R)
    ensures Agrees(conf, stored, R) <==> pushed * R == stored * R
  {
    if Agrees(conf, stored, R) {
      forall r | r in R ensures r in pushed <==> r in stored {
        assert Filter(conf, Names(r)) == if r in pushed then [PushLine(r)] else [];
        assert Filter(conf, Names(r)) == if r in stored then [PushLine(r)] else [];
      }
    } else {
      var r :| r in R && Filter(conf, Names(r)) != if r in stored then [PushLine(r)] else [];
      assert r in pushed * R <==> r !in stored * R;
    }
  }

  /** The pushed routes are the stored ones after a run exactly when `Pushed` says so. */
  lemma RunAgreesIff(env: Env, s: State, calls: seq<Call>, R: set<Route>)
    requires Sane(env) && (forall r :: r in R ==> Plain(r))
    requires Ends(s.conf) && Agrees(Lines(s.conf), Union(env, s.lanips), R)
    requires AllKnown(s, calls)
    ensures var after := Run(env, s, calls);
            Agrees(Lines(after.conf), Union(env, after.lanips), R) <==>
            Pushed(env, s, Union(env, s.lanips), calls) * R == Union(env, after.lanips) * R
  {
    RunPushes(env, s, Union(env, s.lanips), calls, R);
    var after := Run(env, s, calls);
    AgreesIff(Lines(after.conf), Pushed(env, s, Union(env, s.lanips), calls), Union(env, after.lanips), R);
  }

  /** Client-to-client is never switched off, and every accepted LAN parses. */
  ghost predicate Orderly(env: Env, calls: seq<Call>) {
    forall k :: 0 <= k < |calls| ==>
      match calls[k]
      case Toggle(enable) => enable
      case Lans(_, lans) => Accepts(env, lans) ==> Parses(env, lans)
  }

  lemma {:induction false} OrderlyRunPushesStored(env: Env, s: State, calls: seq<Call>)
    requires s.on && AllParse(env, s.lanips) && AllKnown(s, calls) && Orderly(env, calls)
    ensures Run(env, s, calls).on && AllParse(env, Run(env, s, calls).lanips)
    ensures Pushed(env, s, Union(env, s.lanips), calls) == Union(env, Run(env, s, calls).lanips)
  {
    if calls != [] {
      var init, c := calls[..|calls| - 1], calls[|calls| - 1];
      assert forall k :: 0 <= k < |init| ==> init[k] == calls[k];
      OrderlyRunPushesStored(env, s, init);
      var before := Run(env, s, init);
      assert Known(before, c);
      if c.Lans? { UnionAfter(env, before.lanips, c.user, c.lans); }
    }
  }

  /**
   Over every run with client-to-client on throughout whose accepted LANs parse, starting in
   agreement: each route is pushed by exactly one line if some user stores it and by none otherwise.
   */
  lemma RunAgrees(env: Env, s: State, calls: seq<Call>, R: set<Route>)
    requires Sane(env) && (forall r :: r in R ==> Plain(r)) && AllParse(env, s.lanips)
    requires s.on && Ends(s.conf) && Agrees(Lines(s.conf), Union(env, s.lanips), R)
    requires AllKnown(s, calls) && Orderly(env, calls)
    ensures Agrees(Lines(Run(env, s, calls).conf), Union(env, Run(env, s, calls).lanips), R)
  {
    OrderlyRunPushesStored(env, s, calls);
    RunPushes(env, s, Union(env, s.lanips), calls, R);
  }

  /** Where MQVPN is installed and its check is the stricter one, every such run keeps agreement. */
  lemma StrictRunAgrees(env: Env, s: State, calls: seq<Call>, R: set<Route>)
    requires Sane(env) && (forall r :: r in R ==> Plain(r)) && AllParse(env, s.lanips)
    requires env.mqvpn && forall lan :: env.ipv4(lan) ==> env.net(lan).Some?
    requires s.on && Ends(s.conf) && Agrees(Lines(s.conf), Union(env, s.lanips), R)
    requires AllKnown(s, calls) && Toggle(false) !in calls
    ensures Agrees(Lines(Run(env, s, calls).conf), Union(env, Run(env, s, calls).lanips), R)
  {
    RunAgrees(env, s, calls, R);
  }

  // ----- Routes left behind

  /** A call that stores without reaching the file keeps agreement exactly when the stored routes have not changed. */
  lemma UnbuiltCallAgreesIff(env: Env, s: State, user: string, lans: seq<string>, R: set<Route>)
    requires user in s.lanips && Accepts(env, lans) && !Rebuilds(env, s, user, lans)
    requires Agrees(Lines(s.conf), Union(env, s.lanips), R)
    ensures var after := Step(env, s, Lans(user, lans));
            Agrees(Lines(after.conf), Union(env, after.lanips), R) <==>
            Union(env, s.lanips) * R == Union(env, after.lanips) * R
  {
    AgreesIff(Lines(s.conf), Union(env, s.lanips), Union(env, s.lanips[user := lans]), R);
  }

  /** A pushed route that nobody stores stays pushed over every run in which nobody stores it. */
  lemma {:induction false} OrphanStaysPushed(env: Env, s: State, pushed: set<Route>, calls: seq<Call>, r: Route)
    requires AllKnown(s, calls) && r in pushed && r !in Union(env, s.lanips)
    requires forall k :: 0 <= k < |calls| ==> (calls[k].Lans? ==> r !in RoutesOf(env, calls[k].lans))
    ensures r in Pushed(env, s, pushed, calls) && r !in Union(env, Run(env, s, calls).lanips)
  {
    if calls != [] {
      var init, c := calls[..|calls| - 1], calls[|calls| - 1];
      OrphanStaysPushed(env, s, pushed, init, r);
      var before := Run(env, s, init);
      assert Known(before, c);
      if c.Lans? { UnionAfter(env, before.lanips, c.user, c.lans); }
    }
  }

  /**
   While a stored LAN of one user does not parse, no store reaches the file: neither one of anybody
   else nor the user's own next one, whatever it stores, since the former LANs are parsed too.
   */
  lemma {:induction false} BadLanBlocks(env: Env, s: State, pushed: set<Route>, calls: seq<Call>, user: string, next: seq<string>)
    requires user in s.lanips && !Parses(env, s.lanips[user]) && AllKnown(s, calls)
    requires forall k :: 0 <= k < |calls| ==> (calls[k].Lans? ==> calls[k].user != user)
    ensures Run(env, s, calls).lanips[user] == s.lanips[user]
    ensures var blocked := Step(env, Run(env, s, calls), Lans(user, next));
            && Pushed(env, s, pushed, calls) == PushedBy(env, Run(env, s, calls), pushed, Lans(user, next)) == pushed
            && ((forall k :: 0 <= k < |calls| ==> calls[k].Lans?) ==> blocked.conf == Run(env, s, calls).conf == s.conf)
  {
    if calls != [] {
      var init, c := calls[..|calls| - 1], calls[|calls| - 1];
      assert forall k :: 0 <= k < |init| ==> init[k] == calls[k];
      BadLanBlocks(env, s, pushed, init, user, next);
      var before := Run(env, s, init);
      assert Known(before, c);
      if c.Lans? { assert user in before.lanips[c.user := c.lans]; }
    }
  }

  /** For instance, from agreement a LAN that does not parse leaves its former route pushed. */
  lemma BadLanInstance(env: Env, user: string, good: string, bad: string, r: Route)
    requires Sane(env) && !env.mqvpn && env.net(good) == Some(r) && env.net(bad) == None
    ensures var s := State(map[user := [good]], true, PushLine(r));
            var after := Step(env, s, Lans(user, [bad]));
            && Agrees(Lines(s.conf), Union(env, s.lanips), {r})
            && after == State(map[user := [bad]], true, PushLine(r))
            && !Agrees(Lines(after.conf), Union(env, after.lanips), {r})
  {
    OneUser(env, user, good);
    OneUser(env, user, bad);
    OnlyPushed(r, {r});
    assert map[user := [good]][user := [bad]] == map[user := [bad]];
    AgreesIff(Lines(PushLine(r)), {r}, {}, {r});
  }

  /** And it is pushed by one line, stored by nobody, after every run in which nobody stores its route again. */
  lemma BadLanOutlived(env: Env, user: string, bad: string, r: Route, calls: seq<Call>)
    requires Sane(env) && Plain(r) && env.net(bad) == None
    requires AllKnown(State(map[user := [bad]], true, PushLine(r)), calls)
    requires forall k :: 0 <= k < |calls| ==> (calls[k].Lans? ==> r !in RoutesOf(env, calls[k].lans))
    ensures var after := Run(env, State(map[user := [bad]], true, PushLine(r)), calls);
            Filter(Lines(after.conf), Names(r)) == [PushLine(r)] && r !in Union(env, after.lanips)
  {
    var s := State(map[user := [bad]], true, PushLine(r));
    OneUser(env, user, bad);
    OnlyPushed(r, {r});
    OrphanStaysPushed(env, s, {r}, calls, r);
    RunPushes(env, s, {r}, calls, {r});
  }

  /** Switching off, storing, and switching on again. */
  function OffAndOn(env: Env, s: State, user: string, lans: seq<string>): State
    requires user in s.lanips
  {
    Step(env, Step(env, Step(env, s, Toggle(false)), Lans(user, lans)), Toggle(true))
  }

  lemma OffPushes(env: Env, s: State, pushed: set<Route>, user: string, lans: seq<string>, R: set<Route>)
    requires Sane(env) && user in s.lanips && Accepts(env, lans) && (forall r :: r in R ==> Plain(r))
    requires Ends(s.conf) && Agrees(Lines(s.conf), pushed, R)
    ensures var after := OffAndOn(env, s, user, lans);
            after.on && after.lanips == s.lanips[user := lans] && Agrees(Lines(after.conf), pushed, R)
  {
    var off := Step(env, s, Toggle(false));
    StepPushes(env, s, pushed, Toggle(false), R);
    StepPushes(env, off, pushed, Lans(user, lans), R);
    StepPushes(env, Step(env, off, Lans(user, lans)), pushed, Toggle(true), R);
  }

  /** What is stored while client-to-client is off leaves agreement, once it is on again, exactly when the stored routes are the same. */
  lemma OffAgreesIff(env: Env, s: State, user: string, lans: seq<string>, R: set<Route>)
    requires Sane(env) && user in s.lanips && Accepts(env, lans) && (forall r :: r in R ==> Plain(r))
    requires Ends(s.conf) && Agrees(Lines(s.conf), Union(env, s.lanips), R)
    ensures var after := OffAndOn(env, s, user, lans);
            && after.on && after.lanips == s.lanips[user := lans]
            && (Agrees(Lines(after.conf), Union(env, after.lanips), R) <==>
                Union(env, s.lanips) * R == Union(env, s.lanips[user := lans]) * R)
  {
    OffPushes(env, s, Union(env, s.lanips), user, lans, R);
    AgreesIff(Lines(OffAndOn(env, s, user, lans).conf), Union(env, s.lanips), Union(env, s.lanips[user := lans]), R);
  }

  /** For instance, the route of a LAN dropped while it was off is still pushed. */
  lemma OffInstance(env: Env, user: string, lan: string, r: Route)
    requires Sane(env) && !env.mqvpn && env.net(lan) == Some(r)
    ensures var s := State(map[user := [lan]], true, PushLine(r));
            Agrees(Lines(s.conf), Union(env, s.lanips), {r}) && StillPushed(env, s, OffAndOn(env, s, user, []), r)
  {
    var s := State(map[user := [lan]], true, PushLine(r));
    OneRoute(env, user, lan, r);
    NoLans(env, user);
    LastLanDropped(env, s, user, r);
  }

  /** A route that some user stored and nobody stores any more is pushed. */
  ghost predicate StillPushed(env: Env, before: State, after: State, r: Route) {
    && r in Union(env, before.lanips) && r !in Union(env, after.lanips)
    && Filter(Lines(after.conf), Names(r)) == [PushLine(r)]
  }

  lemma LastLanDropped(env: Env, s: State, user: string, r: Route)
    requires Sane(env) && !env.mqvpn && Plain(r) && user in s.lanips
    requires Ends(s.conf) && Agrees(Lines(s.conf), Union(env, s.lanips), {r})
    requires r in Union(env, s.lanips) && r !in Union(env, s.lanips[user := []])
    ensures StillPushed(env, s, OffAndOn(env, s, user, []), r)
  {
    OffPushes(env, s, Union(env, s.lanips), user, [], {r});
  }

  lemma OneRoute(env: Env, user: string, lan: string, r: Route)
    requires Plain(r) && env.net(lan) == Some(r)
    ensures Union(env, map[user := [lan]]) == {r}
    ensures Ends(PushLine(r)) && Agrees(Lines(PushLine(r)), Union(env, map[user := [lan]]), {r})
  {
    OneUser(env, user, lan);
    OnlyPushed(r, {r});
  }

  lemma NoLans(env: Env, user: string)
    ensures forall lans :: Union(env, map[user := lans][user := []]) == {}
  {
    assert RoutesOf(env, []) == {};
  }

  /** One user storing one LAN. */
  lemma OneUser(env: Env, user: string, lan: string)
    ensures Parses(env, [lan]) <==> env.net(lan).Some?
    ensures RoutesOf(env, [lan]) == Union(env, map[user := [lan]])
    ensures RoutesOf(env, [lan]) == if env.net(lan).Some? then {env.net(lan).value} else {}
    ensures AllParse(env, map[user := [lan]]) <==> env.net(lan).Some?
  {
    assert env.net(lan).Some? ==> env.net([lan][0]).value in RoutesOf(env, [lan]);
    assert user in map[user := [lan]];
    assert [lan][0] == lan;
  }

  /** A file of one push line. */
  lemma OnlyPushed(r: Route, R: set<Route>)
    requires Plain(r) && forall q :: q in R ==> Plain(q)
    ensures Ends(PushLine(r)) && Lines(PushLine(r)) == [PushLine(r)] && Agrees([PushLine(r)], {r}, R)
    ensures Agrees([PushLine(r)], {r}, {r})
  {
    PlainPush(r);
    LinesCons(PushLine(r), "");
    assert PushLine(r) + "" == PushLine(r);
    forall q | q in R + {r} ensures Filter([PushLine(r)], Names(q)) == if q in {r} then [PushLine(r)] else [] {
      PushLineNames(r, q);
    }
  }
}
