/**
 The control address of MQVPN: "HOST:PORT" or "[HOST]:PORT", parsed from the
 server configuration and printed in the user listing.
 */
module ControlAddress {
  import opened Options
  import opened Text

  const DEFAULT_HOST := "127.0.0.1"
  const DEFAULT_PORT := 9090

  /** Characters Python's `str.strip` removes. */
  predicate IsSpace(c: char) {
    || '\t' <= c <= '\r' || c == ' ' || '\U{1c}' <= c <= '\U{1f}' || c == '\U{85}' || c == '\U{a0}' || c == '\U{1680}'
    || '\U{2000}' <= c <= '\U{200a}' || c == '\U{2028}' || c == '\U{2029}' || c == '\U{202f}' || c == '\U{205f}' || c == '\U{3000}'
  }

  lemma SpaceCodes(c: char)
    ensures IsSpace(c) <==>
            || 9 <= c as int <= 13 || 28 <= c as int <= 32 || 8192 <= c as int <= 8202
            || c as int in {133, 160, 5760, 8232, 8233, 8239, 8287, 12288}
  {
  }

  function StripLeft(s: string): string {
    if s != "" && IsSpace(s[0]) then StripLeft(s[1..]) else s
  }

  function StripRight(s: string): string {
    if s != "" && IsSpace(s[|s| - 1]) then StripRight(s[..|s| - 1]) else s
  }

  function Strip(s: string): string {
    StripRight(StripLeft(s))
  }

  /** Index of the last occurrence of a character, if any. */
  function FindLast(s: string, c: char): (k: Option<nat>)
    ensures k.None? ==> c !in s
    ensures k.Some? ==> k.value < |s| && s[k.value] == c && forall i :: k.value < i < |s| ==> s[i] != c
  {
    if s == "" then None
    else if s[|s| - 1] == c then Some(|s| - 1)
    else FindLast(s[..|s| - 1], c)
  }

  datatype Address = Address(host: string, port: nat)

  /** Host and port text of a stripped listen address; empty when a bracketed form is malformed. */
  function Split(listen: string): (string, string) {
    if listen != "" && listen[0] == '[' then
      var close := Find(listen, ']');
      if close == |listen| || close < 2 || !(close + 1 < |listen| && listen[close + 1] == ':') then ("", "")
      else (listen[1..close], listen[close + 2..])
    else
      match FindLast(listen, ':')
      case None => ("", listen)
      case Some(k) => (listen[..k], listen[k + 1..])
  }

  function PortOf(text: string): nat {
    if text != "" && forall i | 0 <= i < |text| :: IsDigit(text[i]) then Number(text) else 0
  }

  /** A wildcard bind is reached through the matching loopback address. */
  function Reachable(host: string): string {
    if host == "0.0.0.0" || host == "*" then "127.0.0.1" else if host == "::" then "::1" else host
  }

  /** The address the service connects to; a missing or malformed value gives the default. */
  function Parse(listen: Option<string>): Address {
    var default := Address(DEFAULT_HOST, DEFAULT_PORT);
    if listen.None? || Strip(listen.value) == "" then default
    else
      var (host, portText) := Split(Strip(listen.value));
      var port := PortOf(portText);
      if host == "" || !(0 < port <= 65535) then default else Address(Reachable(host), port)
  }

  /** The printed form: brackets around a host with a colon. */
  function Print(a: Address): string {
    if ':' in a.host then Bracketed(a) else a.host + ":" + Decimal(a.port)
  }

  function Bracketed(a: Address): string {
    "[" + a.host + "]:" + Decimal(a.port)
  }

  predicate Wildcard(host: string) {
    host == "0.0.0.0" || host == "*" || host == "::"
  }

  lemma ReachableIdempotent(host: string)
    ensures Reachable(Reachable(host)) == Reachable(host)
    ensures Reachable(host) == host <==> !Wildcard(host)
  {
    assert "127.0.0.1"[0] == '1' && |"::1"| == 3;
    assert |"127.0.0.1"| == 9 && |"0.0.0.0"| == 7;
  }

  // ----- Round trips

  lemma FindLastIs(s: string, c: char, k: nat)
    requires k < |s| && s[k] == c && forall i :: k < i < |s| ==> s[i] != c
    ensures FindLast(s, c) == Some(k)
  {
    assert s[k] in s;
  }

  lemma StripNothing(s: string)
    requires s != "" && !IsSpace(s[0]) && !IsSpace(s[|s| - 1])
    ensures Strip(s) == s
  {
  }

  lemma PortOfDecimal(port: nat)
    ensures PortOf(Decimal(port)) == port
    ensures !IsSpace(Decimal(port)[|Decimal(port)| - 1])
    ensures ':' !in Decimal(port) && ']' !in Decimal(port)
  {
    NumberOfDecimal(port);
    assert IsDigit(Decimal(port)[|Decimal(port)| - 1]);
  }

  lemma ParseOf(listen: string, host: string, portText: string)
    requires listen != "" && Strip(listen) == listen && Split(listen) == (host, portText)
    ensures Parse(Some(listen)) ==
            if host == "" || !(0 < PortOf(portText) <= 65535) then Address(DEFAULT_HOST, DEFAULT_PORT)
            else Address(Reachable(host), PortOf(portText))
  {
  }

  predicate ValidPort(port: nat) {
    1 <= port <= 65535
  }

  lemma BracketedSplit(a: Address)
    ensures Strip(Bracketed(a)) == Bracketed(a)
    ensures ']' !in a.host && a.host != "" ==> Split(Bracketed(a)) == (a.host, Decimal(a.port))
    ensures ']' in a.host || a.host == "" ==>
              Split(Bracketed(a)).0 == "" || exists i :: 0 <= i < |Split(Bracketed(a)).1| && Split(Bracketed(a)).1[i] == ']'
  {
    var s, h, d := Bracketed(a), a.host, Decimal(a.port);
    PortOfDecimal(a.port);
    assert s[|s| - 1] == d[|d| - 1];
    StripNothing(s);
    var last := |h| + 1;
    assert s[0] == '[' && s[last] == ']' && s[last + 1] == ':' && s[last + 2..] == d && s[1..last] == h;
    if ']' in h {
      var close := Find(s, ']');
      var i :| 0 <= i < |h| && h[i] == ']';
      assert s[i + 1] == h[i];
      if Split(s).0 != "" { assert Split(s).1 == s[close + 2..] && s[close + 2..][last - close - 2] == ']'; }
    } else {
      assert s[..last] == ['['] + h;
      FindIs(s, ']', last);
    }
  }

  /** A bracketed address round-trips exactly for a non-empty, non-wildcard host without a closing bracket. */
  lemma BracketedRoundTripIff(a: Address)
    requires ValidPort(a.port)
    ensures Parse(Some(Bracketed(a))) == a <==> a.host != "" && !Wildcard(a.host) && ']' !in a.host
  {
    var s := Bracketed(a);
    BracketedSplit(a);
    PortOfDecimal(a.port);
    ReachableIdempotent(a.host);
    ParseOf(s, Split(s).0, Split(s).1);
    if ']' in a.host || a.host == "" {
      assert Parse(Some(s)) == Address(DEFAULT_HOST, DEFAULT_PORT);
      assert ']' !in DEFAULT_HOST && DEFAULT_HOST != "";
    }
  }

  lemma {:induction false} StripLeftIsSuffix(s: string) returns (j: nat)
    ensures j <= |s| && StripLeft(s) == s[j..]
    ensures j < |s| ==> !IsSpace(s[j])
    ensures forall i :: 0 <= i < j ==> IsSpace(s[i])
  {
    if s == "" || !IsSpace(s[0]) {
      j := 0;
    } else {
      j := StripLeftIsSuffix(s[1..]);
      j := j + 1;
    }
  }

  lemma ParseHost(s: string)
    requires Strip(s) != ""
    ensures Parse(Some(s)).host in [DEFAULT_HOST, Reachable(Split(Strip(s)).0)]
  {
  }

  /** Stripping the printed form drops characters of the host only. */
  lemma StrippedPrint(a: Address) returns (j: nat)
    requires ':' !in a.host
    ensures j <= |a.host| && Strip(Print(a)) == Print(a)[j..] && !IsSpace(Print(a)[j])
  {
    var s, d := Print(a), Decimal(a.port);
    PortOfDecimal(a.port);
    assert s[|s| - 1] == d[|d| - 1] && s[|a.host|] == ':';
    j := StripLeftIsSuffix(s);
    assert s[j..][|s| - j - 1] == s[|s| - 1];
  }

  /** An unbracketed host that starts with whitespace or an opening bracket is not read as itself. */
  lemma MisreadHost(a: Address)
    requires ':' !in a.host && a.host != "" && (IsSpace(a.host[0]) || a.host[0] == '[')
    ensures Strip(Print(a)) != "" && Split(Strip(Print(a))).0 != a.host
  {
    var j := StrippedPrint(a);
    var s, t, d := Print(a), Print(a)[j..], Decimal(a.port);
    assert t[0] == s[j];
    PortOfDecimal(a.port);
    if t[0] == '[' {
      var close := Find(t, ']');
      if close >= 2 && close + 1 < |t| && t[close + 1] == ':' {
        assert s[j + close + 1] == ':';
        assert forall i :: |a.host| < i < |s| ==> s[i] == d[i - |a.host| - 1];
      }
    } else {
      var k := FindLast(t, ':');
      if k.Some? && k.value > 0 { assert t[..k.value][0] == t[0]; }
    }
  }

  lemma PlainSplit(a: Address)
    requires ':' !in a.host && (a.host != "" ==> !IsSpace(a.host[0]) && a.host[0] != '[')
    ensures Strip(Print(a)) == Print(a) != "" && Split(Print(a)) == (a.host, Decimal(a.port))
  {
    var s, d := Print(a), Decimal(a.port);
    PortOfDecimal(a.port);
    assert s[|a.host|] == ':' && s[|a.host| + 1..] == d && s[..|a.host|] == a.host;
    assert s[|s| - 1] == d[|d| - 1];
    StripNothing(s);
    FindLastIs(s, ':', |a.host|);
  }

  /** The printed address reads back exactly when its host survives: the condition a caller can check. */
  lemma PrintRoundTripIff(a: Address)
    requires ValidPort(a.port)
    ensures Parse(Some(Print(a))) == a <==>
            && a.host != ""
            && !Wildcard(a.host)
            && (if ':' in a.host then ']' !in a.host else a.host[0] != '[' && !IsSpace(a.host[0]))
  {
    if ':' in a.host {
      BracketedRoundTripIff(a);
    } else if a.host != "" && (IsSpace(a.host[0]) || a.host[0] == '[') {
      MisreadHost(a);
      ParseHost(Print(a));
      assert DEFAULT_HOST[0] == '1' && "::1"[0] == ':';
    } else {
      PlainSplit(a);
      PortOfDecimal(a.port);
      ParseOf(Print(a), a.host, Decimal(a.port));
      ReachableIdempotent(a.host);
    }
  }

  /** A missing value, one of whitespace, and one without a colon give the default address. */
  lemma ParseDefault(listen: Option<string>)
    requires listen.None? || Strip(listen.value) == "" || ':' !in listen.value
    ensures Parse(listen) == Address("127.0.0.1", 9090)
  {
    if listen.Some? && ':' !in listen.value { StripMembers(listen.value, ':'); }
  }

  lemma {:induction false} StripMembers(s: string, c: char)
    requires c !in s
    ensures c !in Strip(s)
  {
    var j := StripLeftIsSuffix(s);
    StripRightMembers(s[j..], c);
  }

  lemma {:induction false} StripRightMembers(s: string, c: char)
    requires c !in s
    ensures c !in StripRight(s)
  {
    if s != "" { StripRightMembers(s[..|s| - 1], c); }
  }

  /** What an address with the given host and port is read as. */
  ghost predicate ReadAs(listen: string, host: string, port: nat) {
    Parse(Some(listen)) ==
      if !(1 <= port <= 65535) then Address("127.0.0.1", 9090)
      else if host == "0.0.0.0" || host == "*" then Address("127.0.0.1", port)
      else if host == "::" then Address("::1", port)
      else Address(host, port)
  }

  /** Both forms give the default for a port outside 1..65535, and otherwise the host, wildcards read as loopback, and the port. */
  lemma ParseForms(host: string, port: nat)
    requires host != ""
    ensures ':' !in host && host[0] != '[' && !IsSpace(host[0]) ==> ReadAs(host + ":" + Decimal(port), host, port)
    ensures ']' !in host ==> ReadAs("[" + host + "]:" + Decimal(port), host, port)
  {
    var a := Address(host, port);
    PortOfDecimal(port);
    if ':' !in host && host[0] != '[' && !IsSpace(host[0]) {
      PlainSplit(a);
      ParseOf(Print(a), host, Decimal(port));
    }
    if ']' !in host {
      BracketedSplit(a);
      ParseOf(Bracketed(a), host, Decimal(port));
    }
  }

  /** For instance, a plain host that starts with a bracket, and an IPv6 wildcard, are read back as something else. */
  lemma MisreadInstances()
    ensures Parse(Some(Print(Address("[vps", 9090)))) != Address("[vps", 9090)
    ensures Parse(Some(Print(Address("::", 9090)))) != Address("::", 9090)
  {
    assert "[vps"[0] == '[';
    PrintRoundTripIff(Address("[vps", 9090));
    PrintRoundTripIff(Address("::", 9090));
  }
}
