// Vocabulary shared by the models of the admin service: optional values,
// filtered lists, text predicates and rounding.

module Options {
  datatype Option<+T> = None | Some(value: T) {
    function GetOr(default: T): T {
      match this
      case Some(v) => v
      case None => default
    }
  }
}

/** List comprehensions of the forms `[x for x in s if keep(x)]` and `[f(x) for x in s if keep(x)]`. */
module Lists {
  function Comprehend<T, U>(s: seq<T>, keep: T -> bool, f: T -> U): seq<U> {
    if s == [] then [] else (if keep(s[0]) then [f(s[0])] else []) + Comprehend(s[1..], keep, f)
  }

  /** The comprehension as a loop that appends to a list. */
  method AppendAll<T, U>(start: seq<U>, s: seq<T>, keep: T -> bool, f: T -> U) returns (r: seq<U>)
    ensures r == start + Comprehend(s, keep, f)
  {
    r := start;
    for i := 0 to |s|
      invariant r + Comprehend(s[i..], keep, f) == start + Comprehend(s, keep, f)
    {
      assert s[i..][1..] == s[i + 1..];
      if keep(s[i]) {
        r := r + [f(s[i])];
      }
    }
  }

  lemma {:induction false} ComprehendIff<T, U>(s: seq<T>, keep: T -> bool, f: T -> U, y: U)
    ensures y in Comprehend(s, keep, f) <==> exists i :: 0 <= i < |s| && keep(s[i]) && y == f(s[i])
  {
    if s != [] {
      ComprehendIff(s[1..], keep, f, y);
      assert forall i :: 0 <= i < |s| - 1 ==> s[1..][i] == s[i + 1];
      assert forall i :: 0 < i < |s| ==> s[i] == s[1..][i - 1];
    }
  }

  function Filter<T>(s: seq<T>, keep: T -> bool): seq<T> {
    if s == [] then []
    else if keep(s[0]) then [s[0]] + Filter(s[1..], keep)
    else Filter(s[1..], keep)
  }

  lemma {:induction false} FilterMembers<T>(s: seq<T>, keep: T -> bool)
    ensures forall x :: x in Filter(s, keep) ==> x in s && keep(x)
    ensures forall x :: x in s && keep(x) ==> x in Filter(s, keep)
    ensures |Filter(s, keep)| <= |s|
  {
    if s != [] { FilterMembers(s[1..], keep); }
  }

  lemma {:induction false} FilterAppend<T>(a: seq<T>, b: seq<T>, keep: T -> bool)
    ensures Filter(a + b, keep) == Filter(a, keep) + Filter(b, keep)
  {
    if a == [] {
      assert a + b == b;
    } else {
      FilterAppend(a[1..], b, keep);
      assert (a + b)[0] == a[0] && (a + b)[1..] == a[1..] + b;
      Associate([a[0]], Filter(a[1..], keep), Filter(b, keep));
    }
  }

  lemma {:induction false} FilterIdentity<T>(s: seq<T>, keep: T -> bool)
    requires forall x :: x in s ==> keep(x)
    ensures Filter(s, keep) == s
  {
    if s != [] { FilterIdentity(s[1..], keep); }
  }

  lemma {:induction false} FilterNothing<T>(s: seq<T>, keep: T -> bool)
    requires forall x :: x in s ==> !keep(x)
    ensures Filter(s, keep) == []
  {
    if s != [] { FilterNothing(s[1..], keep); }
  }

  predicate Distinct<T(==)>(s: seq<T>) {
    forall i, j :: 0 <= i < j < |s| ==> s[i] != s[j]
  }

  /** Filtering twice keeps what both predicates keep; given as a third predicate. */
  lemma {:induction false} FilterTwice<T>(s: seq<T>, p: T -> bool, q: T -> bool, both: T -> bool)
    requires forall x :: x in s ==> both(x) == (p(x) && q(x))
    ensures Filter(Filter(s, p), q) == Filter(s, both)
  {
    if s != [] {
      FilterTwice(s[1..], p, q, both);
      var head := if p(s[0]) then [s[0]] else [];
      assert Filter(s, p) == head + Filter(s[1..], p);
      FilterAppend(head, Filter(s[1..], p), q);
      if p(s[0]) { assert Filter([s[0]], q) == if q(s[0]) then [s[0]] else []; }
    }
  }

  /** One element passes, at one place. */
  lemma {:induction false} FilterSingle<T>(s: seq<T>, keep: T -> bool, x: T) returns (k: nat)
    requires Filter(s, keep) == [x]
    ensures k < |s| && s[k] == x && keep(x) && forall j :: 0 <= j < |s| && keep(s[j]) ==> j == k
  {
    if keep(s[0]) {
      k := 0;
      var rest := Filter(s[1..], keep);
      FilterMembers(s[1..], keep);
      assert Filter(s, keep) == [s[0]] + rest && |[s[0]] + rest| == 1 + |rest| && ([s[0]] + rest)[0] == s[0];
      assert forall j :: 0 < j < |s| ==> s[1..][j - 1] == s[j];
      assert forall j :: 0 < j < |s| ==> s[j] in s[1..];
    } else {
      k := FilterSingle(s[1..], keep, x);
      assert forall j :: 0 < j < |s| ==> s[1..][j - 1] == s[j];
      k := k + 1;
    }
  }

  lemma FiltersCommute<T>(s: seq<T>, p: T -> bool, q: T -> bool)
    ensures Filter(Filter(s, p), q) == Filter(Filter(s, q), p)
  {
    var both := (x: T) => p(x) && q(x);
    FilterTwice(s, p, q, both);
    FilterTwice(s, q, p, both);
  }

  lemma {:induction false} DistinctFilter<T>(s: seq<T>, keep: T -> bool)
    requires Distinct(s)
    ensures Distinct(Filter(s, keep))
  {
    if s != [] {
      DistinctFilter(s[1..], keep);
      FilterMembers(s[1..], keep);
    }
  }

  lemma Associate<T>(a: seq<T>, b: seq<T>, c: seq<T>)
    ensures a + b + c == a + (b + c)
  {
  }
}

module Sets {
  /** A witness that a set is not empty. */
  lemma Member<T>(s: set<T>) returns (x: T)
    requires s != {}
    ensures x in s
  {
    x :| x in s;
  }

  /** A witness that one set is not contained in another. */
  lemma Outsider<T>(a: set<T>, b: set<T>) returns (x: T)
    requires !(a <= b)
    ensures x in a && x !in b
  {
    x :| x in a && x !in b;
  }
}

/** Accumulating a sequence of additions into a value whose members can be tested. */
module Folding {
  function Fold<M, C>(zero: M, add: (M, C) -> M, cs: seq<C>): M {
    if cs == [] then zero else add(Fold(zero, add, cs[..|cs| - 1]), cs[|cs| - 1])
  }

  lemma {:induction false} FoldMembers<M(!new), C(!new)>(zero: M, add: (M, C) -> M, has: (M, C) -> bool, cs: seq<C>, c: C)
    requires !has(zero, c)
    requires forall m, d :: has(add(m, d), c) <==> has(m, c) || d == c
    ensures has(Fold(zero, add, cs), c) <==> c in cs
  {
    if cs != [] {
      FoldMembers(zero, add, has, cs[..|cs| - 1], c);
      assert cs == cs[..|cs| - 1] + [cs[|cs| - 1]];
    }
  }
}

/** Decimal rendering of integers and the string predicates the service uses. */
module Text {
  import opened Lists

  function Digit(d: nat): char
    requires d < 10
  {
    (d + '0' as int) as char
  }

  predicate IsDigit(c: char) { '0' <= c <= '9' }

  /** Python's `str(n)` for a natural number. */
  function Decimal(n: nat): (s: string)
    ensures |s| > 0
    ensures forall i :: 0 <= i < |s| ==> IsDigit(s[i])
  {
    if n < 10 then [Digit(n)] else Decimal(n / 10) + [Digit(n % 10)]
  }

  /** Python's `int(s)` for a string of ASCII digits. */
  function Number(s: string): nat
    requires forall i :: 0 <= i < |s| ==> IsDigit(s[i])
  {
    if s == [] then 0
    else assert IsDigit(s[|s| - 1]); 10 * Number(s[..|s| - 1]) + (s[|s| - 1] as int - '0' as int)
  }

  lemma {:induction false} NumberOfDecimal(n: nat)
    ensures Number(Decimal(n)) == n
  {
    if n >= 10 {
      NumberOfDecimal(n / 10);
      assert Decimal(n)[..|Decimal(n)| - 1] == Decimal(n / 10);
    }
  }

  /** No leading zero. */
  lemma {:induction false} DecimalCanonical(n: nat)
    ensures Decimal(n)[0] == '0' <==> n == 0
    ensures |Decimal(n)| == 1 <==> n < 10
  {
    if n >= 10 { DecimalCanonical(n / 10); }
  }

  lemma DecimalInjective(m: nat, n: nat)
    requires Decimal(m) == Decimal(n)
    ensures m == n
  {
    NumberOfDecimal(m);
    NumberOfDecimal(n);
  }

  /** Python's `s.startswith(p)`. */
  predicate StartsWith(s: string, p: string) {
    |p| <= |s| && s[..|p|] == p
  }

  /** `p` occurs in `s` at offset `k`. */
  predicate OccursAt(p: string, s: string, k: int) {
    0 <= k <= |s| - |p| && s[k..k + |p|] == p
  }

  /** Python's `p in s` for strings. */
  predicate Contains(s: string, p: string) {
    exists k | 0 <= k <= |s| - |p| :: OccursAt(p, s, k)
  }

  /** `s` is `a`, `p` and `b` in a row. */
  predicate Splits(s: string, a: string, p: string, b: string) {
    s == a + p + b
  }

  lemma ContainsIff(s: string, p: string)
    ensures Contains(s, p) <==> exists a, b :: Splits(s, a, p, b)
  {
    if Contains(s, p) {
      var k :| 0 <= k <= |s| - |p| && OccursAt(p, s, k);
      assert Splits(s, s[..k], p, s[k + |p|..]);
    }
    if exists a, b :: Splits(s, a, p, b) {
      var a, b :| Splits(s, a, p, b);
      assert OccursAt(p, s, |a|);
    }
  }

  /** Index of the first occurrence of a character, or the length. */
  function Find(s: string, c: char): (k: nat)
    ensures k <= |s| && forall i :: 0 <= i < k ==> s[i] != c
    ensures k < |s| ==> s[k] == c
  {
    if s == "" || s[0] == c then 0 else 1 + Find(s[1..], c)
  }

  lemma FindIs(s: string, c: char, k: nat)
    requires k < |s| && s[k] == c && forall i :: 0 <= i < k ==> s[i] != c
    ensures Find(s, c) == k
  {
  }

  /** Python's `''.join(lines)`. */
  function Join(lines: seq<string>): string {
    if lines == [] then "" else lines[0] + Join(lines[1..])
  }

  lemma {:induction false} JoinAppend(a: seq<string>, b: seq<string>)
    ensures Join(a + b) == Join(a) + Join(b)
  {
    if a == [] {
      assert a + b == b;
    } else {
      JoinAppend(a[1..], b);
      assert (a + b)[1..] == a[1..] + b && (a + b)[0] == a[0];
      Associate(a[0], Join(a[1..]), Join(b));
    }
  }
}

/** Python's `round`: to the nearest integer, ties to the even one. */
module Rounding {
  function Round(x: real): int {
    var f := x.Floor;
    var frac := x - f as real;
    if frac < 0.5 then f
    else if frac > 0.5 then f + 1
    else if f % 2 == 0 then f else f + 1
  }

  lemma RoundNearest(x: real)
    ensures -0.5 <= Round(x) as real - x <= 0.5
  {
  }

  /** Half-way values go to the even neighbour. */
  lemma RoundTies(n: int)
    ensures Round(n as real + 0.5) == if n % 2 == 0 then n else n + 1
  {
    assert (n as real + 0.5).Floor == n;
  }

  lemma RoundMonotone(x: real, y: real)
    requires x <= y
    ensures Round(x) <= Round(y)
  {
    assert x.Floor <= y.Floor;
  }
}

/** Signs and identities of products of reals, stated one at a time. */
module Products {
  /** The product of x and k is y; keeps products out of quantifiers. */
  predicate Times(x: real, k: real, y: real) {
    x * k == y
  }

  lemma Product(x: real, y: real) returns (z: real)
    ensures z == x * y
    ensures (x > 0.0 && y > 0.0) || (x < 0.0 && y < 0.0) ==> z > 0.0
    ensures (x >= 0.0 && y >= 0.0) || (x <= 0.0 && y <= 0.0) ==> z >= 0.0
  {
    z := x * y;
  }

  lemma Quotient(x: real, y: real) returns (q: real)
    requires y > 0.0
    ensures q == x / y && q * y == x
    ensures x > 0.0 ==> q > 0.0
    ensures x == 0.0 ==> q == 0.0
  {
    q := x / y;
  }

  lemma Undivide(x: real, y: real)
    requires y > 0.0
    ensures x / y * y == x
  {
  }

  lemma CancelToOne(x: real, k: real, xk: real)
    requires k > 0.0 && x * k == xk && xk == k
    ensures x == 1.0
  {
    if x < 1.0 { var z := Product(1.0 - x, k); }
    if x > 1.0 { var z := Product(x - 1.0, k); }
  }

  lemma Distribute(k: real, x: real, y: real)
    ensures k * (x + y) == k * x + k * y
    ensures (x + y) * k == x * k + y * k
  {
  }

  /** Comparing two numbers by their multiples. */
  lemma Cancel(x: real, y: real, k: real, xk: real, yk: real)
    requires k > 0.0 && x * k == xk && y * k == yk
    ensures xk == yk <==> x == y
    ensures xk <= yk <==> x <= y
  {
    if x < y { var z := Product(y - x, k); }
    if y < x { var z := Product(x - y, k); }
  }
}
