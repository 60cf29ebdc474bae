/** Tags of the XRay reverse forwards, as strings built from user name and port. */
module ReverseTags {
  import opened Text

  const LISTENER := "omr-rpf-reverse-listen"
  const FAMILY := "omr-rpf-"
  const TCP := "-tcp-"

  function PublicTag(user: string, port: nat): string {
    FAMILY + user + TCP + Decimal(port)
  }

  function ReverseTag(user: string): string {
    "omr-rpf-reverse-" + user
  }

  /** What every public tag of the user starts with. */
  function UserPrefix(user: string): string {
    FAMILY + user + TCP
  }

  predicate InFamily(tag: string) {
    StartsWith(tag, FAMILY)
  }

  /** The public tags of v look like tags of u: v is u followed by "-tcp", alone or with more after a dash. */
  predicate Shadows(u: string, v: string) {
    StartsWith(v + "-", u + TCP)
  }

  lemma PublicTagAt(user: string, port: nat, i: nat)
    requires i < |PublicTag(user, port)|
    ensures |PublicTag(user, port)| == 8 + |user| + 5 + |Decimal(port)|
    ensures i < 8 ==> PublicTag(user, port)[i] == FAMILY[i]
    ensures 8 <= i < 8 + |user| ==> PublicTag(user, port)[i] == user[i - 8]
    ensures 8 + |user| <= i < 13 + |user| ==> PublicTag(user, port)[i] == TCP[i - 8 - |user|]
    ensures 13 + |user| <= i ==> PublicTag(user, port)[i] == Decimal(port)[i - 13 - |user|]
  {
  }

  lemma PublicTagInFamily(user: string, port: nat)
    ensures InFamily(PublicTag(user, port)) && PublicTag(user, port) != LISTENER
  {
    var last := |PublicTag(user, port)| - 1;
    PublicTagAt(user, port, last);
    assert IsDigit(PublicTag(user, port)[last]);
    assert PublicTag(user, port)[..8] == FAMILY;
    assert LISTENER[|LISTENER| - 1] == 'n';
  }

  /** The dash before the port is the last one, so a tag determines its user and port. */
  lemma PublicTagInjective(u: string, p: nat, v: string, q: nat)
    requires PublicTag(u, p) == PublicTag(v, q)
    ensures u == v && p == q
  {
    var s := PublicTag(u, p);
    var dashU, dashV := 12 + |u|, 12 + |v|;
    PublicTagAt(u, p, dashU);
    PublicTagAt(v, q, dashV);
    if dashU < dashV {
      PublicTagAt(u, p, dashV);
    } else if dashV < dashU {
      PublicTagAt(v, q, dashU);
    }
    assert u == s[8..8 + |u|] && v == s[8..8 + |v|];
    assert Decimal(p) == s[13 + |u|..] && Decimal(q) == s[13 + |v|..];
    DecimalInjective(p, q);
  }

  lemma PrefixAt(u: string, v: string, q: nat, i: nat)
    requires StartsWith(PublicTag(v, q), UserPrefix(u)) && 8 + |u| <= i < 13 + |u|
    ensures i < |PublicTag(v, q)| && PublicTag(v, q)[i] == TCP[i - 8 - |u|]
  {
    assert PublicTag(v, q)[..|UserPrefix(u)|][i] == UserPrefix(u)[i];
  }

  lemma PrefixMatch(u: string, v: string, q: nat)
    requires StartsWith(PublicTag(v, q), UserPrefix(u))
    ensures u == v || Shadows(u, v)
  {
    var s, n := PublicTag(v, q), 13 + |u|;
    assert UserPrefix(u) == FAMILY + (u + TCP) && s[..n] == UserPrefix(u);
    assert s == FAMILY + (v + "-") + ("tcp-" + Decimal(q));
    assert s[..n][8..] == u + TCP;
    if |v| == |u| {
      assert s[..n][8..8 + |u|] == v;
      assert (u + TCP)[..|u|] == u;
    } else if |v| >= |u| + 4 {
      assert s[..n][8..] == (v + "-")[..|u| + 5];
    } else if |v| > |u| {
      PublicTagAt(v, q, 8 + |v|);
      PrefixAt(u, v, q, 8 + |v|);
    } else {
      PrefixAt(u, v, q, 8 + |u|);
      PrefixAt(u, v, q, 12 + |u|);
      PublicTagAt(v, q, 8 + |u|);
      PublicTagAt(v, q, 12 + |u|);
    }
  }

  /** The test for remaining forwards of u, on a public tag of v. */
  lemma PrefixMatchIff(u: string, v: string, q: nat)
    ensures StartsWith(PublicTag(v, q), UserPrefix(u)) <==> u == v || Shadows(u, v)
  {
    var s := PublicTag(v, q);
    assert UserPrefix(u) == FAMILY + (u + TCP);
    assert s == FAMILY + (v + "-") + ("tcp-" + Decimal(q));
    if Shadows(u, v) {
      assert s[..13 + |u|] == FAMILY + (v + "-")[..|u + TCP|];
    }
    if u == v {
      assert s[..13 + |u|] == UserPrefix(u);
    }
    if StartsWith(s, UserPrefix(u)) {
      PrefixMatch(u, v, q);
    }
  }

  lemma ListenerHasNoUserPrefix(u: string)
    ensures !StartsWith(LISTENER, UserPrefix(u))
  {
    var n := 13 + |u|;
    if n <= |LISTENER| {
      var i := if |u| == 7 then 19 else 8 + |u|;
      assert UserPrefix(u)[i] == '-' && LISTENER[i] != '-';
      assert LISTENER[..n][i] == LISTENER[i];
    }
  }

  lemma PrefixInFamily(tag: string, u: string)
    requires StartsWith(tag, UserPrefix(u))
    ensures InFamily(tag)
  {
    assert tag[..8] == tag[..|UserPrefix(u)|][..8] == FAMILY;
  }
}
