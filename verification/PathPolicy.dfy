/**
 MQVPN per-path policy: a list of (user, iface) entries with an optional weight
 and an optional DSCP mask, kept converged to each user's last requests.
 */
module PathPolicy {
  import opened Folding
  import opened Options
  import opened Sets

  // ----- DSCP classes and masks

  datatype DscpClass =
    | CS0 | CS1 | CS2 | CS3 | CS4 | CS5 | CS6 | CS7 | LE
    | AF11 | AF12 | AF13 | AF21 | AF22 | AF23 | AF31 | AF32 | AF33
    | AF41 | AF42 | AF43 | EF

  /** Codepoint of a class: a value of the 6-bit field of RFC 2474, section 3. */
  function Codepoint(c: DscpClass): bv6 {
    match c
    case CS0 => 0 case CS1 => 8 case CS2 => 16 case CS3 => 24
    case CS4 => 32 case CS5 => 40 case CS6 => 48 case CS7 => 56
    case LE => 1 case AF11 => 10 case AF12 => 12 case AF13 => 14
    case AF21 => 18 case AF22 => 20 case AF23 => 22 case AF31 => 26
    case AF32 => 28 case AF33 => 30 case AF41 => 34 case AF42 => 36
    case AF43 => 38 case EF => 46
  }

  function ClassOf(code: bv6): DscpClass {
    if code == 0 then CS0 else if code == 8 then CS1 else if code == 16 then CS2 else if code == 24 then CS3 else if code == 32 then CS4
    else if code == 40 then CS5 else if code == 48 then CS6 else if code == 56 then CS7 else if code == 1 then LE else if code == 10 then AF11
    else if code == 12 then AF12 else if code == 14 then AF13 else if code == 18 then AF21 else if code == 20 then AF22 else if code == 22 then AF23
    else if code == 26 then AF31 else if code == 28 then AF32 else if code == 30 then AF33 else if code == 34 then AF41 else if code == 36 then AF42
    else if code == 38 then AF43
    else EF
  }

  /** Different classes have different codepoints. */
  lemma CodepointInjective(a: DscpClass, b: DscpClass)
    requires Codepoint(a) == Codepoint(b)
    ensures a == b
  {
    assert ClassOf(Codepoint(a)) == a && ClassOf(Codepoint(b)) == b;
  }

  /** A class by its name in requests. */
  function Name(c: DscpClass): string {
    match c
    case CS0 => "cs0" case CS1 => "cs1" case CS2 => "cs2" case CS3 => "cs3"
    case CS4 => "cs4" case CS5 => "cs5" case CS6 => "cs6" case CS7 => "cs7"
    case LE => "le" case AF11 => "af11" case AF12 => "af12" case AF13 => "af13"
    case AF21 => "af21" case AF22 => "af22" case AF23 => "af23" case AF31 => "af31"
    case AF32 => "af32" case AF33 => "af33" case AF41 => "af41" case AF42 => "af42"
    case AF43 => "af43" case EF => "ef"
  }

  function DigitAt(s: string, i: nat): int
    requires i < |s|
  {
    s[i] as int - '0' as int
  }

  /**
   The codepoint follows from the name: 8n for a class selector csn, 8x + 2y for assured forwarding afxy,
   46 for expedited forwarding and 1 for lower effort.
   */
  lemma CodepointOfName(c: DscpClass)
    ensures var name, code := Name(c), Codepoint(c) as int;
            && name != ""
            && (name[0] == 'c' ==> |name| == 3 && code == 8 * DigitAt(name, 2))
            && (name[0] == 'a' ==> |name| == 4 && code == 8 * DigitAt(name, 2) + 2 * DigitAt(name, 3))
            && (name[0] == 'e' ==> code == 46)
            && (name[0] == 'l' ==> code == 1)
            && (name[0] == 'c' || name[0] == 'a' || name == "ef" || name == "le")
  {
  }

  predicate Bit(mask: bv64, k: bv6) {
    (mask >> k) & 1 == 1
  }

  function WithBit(mask: bv64, k: bv6): bv64 {
    mask | (1 << k)
  }

  lemma SetBit(mask: bv64, c: bv6, k: bv6)
    ensures Bit(WithBit(mask, c), k) <==> Bit(mask, k) || c == k
  {
    if c == k {} else {}
  }

  function MaskOf(codes: seq<bv6>): bv64 {
    Fold(0, WithBit, codes)
  }

  lemma MaskBits(codes: seq<bv6>, k: bv6)
    ensures Bit(MaskOf(codes), k) <==> k in codes
  {
    forall m, c ensures Bit(WithBit(m, c), k) <==> Bit(m, k) || c == k { SetBit(m, c, k); }
    FoldMembers(0, WithBit, Bit, codes, k);
  }

  /** Codepoints of a list of class names. */
  function Codes(names: seq<Option<DscpClass>>): (codes: seq<bv6>)
    requires None !in names
    ensures |codes| == |names| && forall i :: 0 <= i < |names| ==> codes[i] == Codepoint(names[i].value)
  {
    seq(|names|, i requires 0 <= i < |names| => Codepoint(names[i].value))
  }

  /** A mask's bits are exactly the codepoints of the requested classes, and tell the classes apart. */
  lemma MaskOfClasses(names: seq<Option<DscpClass>>, k: bv6, c: DscpClass)
    requires None !in names
    ensures Bit(MaskOf(Codes(names)), k) <==> exists i :: 0 <= i < |names| && Codepoint(names[i].value) == k
    ensures Bit(MaskOf(Codes(names)), Codepoint(c)) <==> Some(c) in names
  {
    var codes := Codes(names);
    MaskBits(codes, k);
    MaskBits(codes, Codepoint(c));
    if k in codes {
      var i :| 0 <= i < |codes| && codes[i] == k;
      assert Codepoint(names[i].value) == k;
    }
    if Codepoint(c) in codes {
      var i :| 0 <= i < |codes| && codes[i] == Codepoint(c);
      CodepointInjective(names[i].value, c);
    }
    if Some(c) in names {
      var i :| 0 <= i < |names| && names[i] == Some(c);
      assert codes[i] == Codepoint(c);
    }
  }

  /** The mask of a list of class names, an unknown name being None; fails on an unknown one. */
  method Mask(names: seq<Option<DscpClass>>) returns (mask: Option<bv64>)
    ensures mask == if None in names then None else Some(MaskOf(Codes(names)))
  {
    ghost var codes: seq<bv6> := [];
    var m: bv64 := 0;
    for i := 0 to |names|
      invariant |codes| == i && forall j :: 0 <= j < i ==> names[j].Some? && codes[j] == Codepoint(names[j].value)
      invariant m == MaskOf(codes)
    {
      if names[i].None? {
        return None;
      }
      var code := Codepoint(names[i].value);
      m := WithBit(m, code);
      codes := codes + [code];
      assert codes[..i] + [code] == codes;
    }
    assert codes == Codes(names);
    mask := Some(m);
  }

  // ----- Policy entries

  datatype Field = Weight | DscpMask
  function Other(f: Field): Field {
    if f == Weight then DscpMask else Weight
  }

  datatype Value = WeightValue(weight: int) | MaskValue(mask: bv64)
  datatype Key = Key(user: string, iface: string)
  datatype Entry = Entry(key: Key, fields: map<Field, Value>)

  function Keys(p: seq<Entry>): set<Key> {
    if p == [] then {} else {p[0].key} + Keys(p[1..])
  }

  ghost predicate UniqueKeys(p: seq<Entry>) {
    p != [] ==> p[0].key !in Keys(p[1..]) && UniqueKeys(p[1..])
  }

  /** No entry without a weight and without a mask. */
  ghost predicate NoEmptyEntry(p: seq<Entry>) {
    p != [] ==> p[0].fields != map[] && NoEmptyEntry(p[1..])
  }

  /** The values of one field, by key; the first entry of a key that has the field counts. */
  function Values(p: seq<Entry>, f: Field): map<Key, Value> {
    if p == [] then map[]
    else
      var rest := Values(p[1..], f);
      if f in p[0].fields then rest[p[0].key := p[0].fields[f]] else rest
  }

  function Set(p: seq<Entry>, key: Key, f: Field, v: Value): seq<Entry> {
    if p == [] then [Entry(key, map[f := v])]
    else if p[0].key == key then [p[0].(fields := p[0].fields[f := v])] + p[1..]
    else [p[0]] + Set(p[1..], key, f, v)
  }

  function Clear(p: seq<Entry>, key: Key, f: Field): seq<Entry> {
    if p == [] then []
    else if p[0].key == key then
      var fields := p[0].fields - {f};
      if fields == map[] then p[1..] else [p[0].(fields := fields)] + p[1..]
    else [p[0]] + Clear(p[1..], key, f)
  }

  /** An entry of the key after its first one carries the field. */
  predicate Extra(p: seq<Entry>, key: Key, f: Field) {
    if p == [] then false
    else if p[0].key == key then key in Values(p[1..], f)
    else Extra(p[1..], key, f)
  }

  /** Interfaces on which the user has the field set. */
  function Ifaces(m: map<Key, Value>, user: string): set<string> {
    set k | k in m && k.user == user && k.iface != "" :: k.iface
  }

  predicate Owned(k: Key, user: string) {
    k.user == user && k.iface != ""
  }

  /** The user's named interfaces carry exactly `desired`; everything else is as before. */
  function Replace(m: map<Key, Value>, user: string, desired: map<string, Value>): map<Key, Value> {
    (map k | k in m && !Owned(k, user) :: m[k]) + Requested(user, desired)
  }

  function Requested(user: string, desired: map<string, Value>): map<Key, Value> {
    map k | k in KeysOf(user, desired.Keys) :: desired[k.iface]
  }

  // ----- What the definitions mean entry by entry

  /** The i-th entry is the first one of its key that has the field. */
  predicate FirstWith(p: seq<Entry>, i: int, f: Field) {
    0 <= i < |p| && f in p[i].fields && forall j | 0 <= j < i :: p[j].key == p[i].key ==> f !in p[j].fields
  }

  /** A path has a value exactly when some entry of it has the field, and the first such entry gives it. */
  lemma {:induction false} ValuesIff(p: seq<Entry>, f: Field, key: Key)
    ensures key in Values(p, f) <==> exists i :: 0 <= i < |p| && p[i].key == key && f in p[i].fields
    ensures forall i :: FirstWith(p, i, f) && p[i].key == key ==> key in Values(p, f) && Values(p, f)[key] == p[i].fields[f]
  {
    if p != [] {
      var rest := p[1..];
      ValuesIff(rest, f, key);
      if key in Values(rest, f) {
        var i :| 0 <= i < |rest| && rest[i].key == key && f in rest[i].fields;
        assert p[i + 1] == rest[i];
      }
      forall i | FirstWith(p, i, f) && p[i].key == key
        ensures key in Values(p, f) && Values(p, f)[key] == p[i].fields[f]
      {
        if i > 0 { assert FirstWith(rest, i - 1, f) && rest[i - 1].key == key; }
      }
    }
  }

  lemma {:induction false} ExtraIff(p: seq<Entry>, key: Key, f: Field)
    ensures Extra(p, key, f) <==> exists i, j :: 0 <= i < j < |p| && p[i].key == p[j].key == key && f in p[j].fields
  {
    if p != [] {
      var rest := p[1..];
      ExtraIff(rest, key, f);
      ValuesIff(rest, f, key);
      if p[0].key == key && key in Values(rest, f) {
        var j :| 0 <= j < |rest| && rest[j].key == key && f in rest[j].fields;
        assert p[0].key == p[j + 1].key == key && f in p[j + 1].fields;
      }
      if Extra(rest, key, f) {
        var i, j :| 0 <= i < j < |rest| && rest[i].key == rest[j].key == key && f in rest[j].fields;
        assert p[i + 1].key == p[j + 1].key == key && f in p[j + 1].fields;
      }
      if i, j :| 0 <= i < j < |p| && p[i].key == p[j].key == key && f in p[j].fields {
        assert rest[j - 1] == p[j];
        if i > 0 { assert rest[i - 1] == p[i]; }
      }
    }
  }

  // ----- One entry at a time

  lemma {:induction false} ValuesKeys(p: seq<Entry>, f: Field)
    ensures Values(p, f).Keys <= Keys(p)
  {
    if p != [] { ValuesKeys(p[1..], f); }
  }

  /** Setting a value that is already there changes nothing. */
  lemma {:induction false} SetAgain(p: seq<Entry>, key: Key, f: Field, v: Value)
    requires UniqueKeys(p) && key in Values(p, f) && Values(p, f)[key] == v
    ensures Set(p, key, f, v) == p
  {
    ValuesKeys(p[1..], f);
    if p[0].key == key {
      assert p[0].fields[f := v] == p[0].fields;
    } else {
      SetAgain(p[1..], key, f, v);
    }
  }

  lemma {:induction false} SetEffect(p: seq<Entry>, key: Key, f: Field, v: Value)
    ensures Values(Set(p, key, f, v), f) == Values(p, f)[key := v]
    ensures Values(Set(p, key, f, v), Other(f)) == Values(p, Other(f))
    ensures Keys(Set(p, key, f, v)) == Keys(p) + {key}
    ensures UniqueKeys(p) ==> UniqueKeys(Set(p, key, f, v))
    ensures NoEmptyEntry(p) ==> NoEmptyEntry(Set(p, key, f, v))
  {
    if p != [] {
      SetEffect(p[1..], key, f, v);
      ValuesKeys(p[1..], f);
      var q := Set(p, key, f, v);
      if p[0].key == key {
        assert q[1..] == p[1..];
      } else {
        assert q[1..] == Set(p[1..], key, f, v);
      }
    }
  }

  /** Clearing leaves the field of a key behind exactly when a later entry of the key carries it. */
  lemma {:induction false} ClearEffect(p: seq<Entry>, key: Key, f: Field)
    ensures Values(Clear(p, key, f), f) - {key} == Values(p, f) - {key}
    ensures key in Values(Clear(p, key, f), f) <==> Extra(p, key, f)
    ensures Values(Clear(p, key, f), Other(f)) == Values(p, Other(f))
    ensures Keys(Clear(p, key, f)) <= Keys(p)
    ensures UniqueKeys(p) ==> UniqueKeys(Clear(p, key, f))
    ensures NoEmptyEntry(p) ==> NoEmptyEntry(Clear(p, key, f))
  {
    if p != [] {
      if p[0].key == key {
        ClearHead(p, key, f);
      } else {
        ClearEffect(p[1..], key, f);
        assert Clear(p, key, f)[1..] == Clear(p[1..], key, f);
        if f in p[0].fields { HeadOutside(Values(Clear(p[1..], key, f), f), Values(p[1..], f), key, p[0], f); }
      }
    }
  }

  lemma HeadOutside(a: map<Key, Value>, b: map<Key, Value>, key: Key, e: Entry, f: Field)
    requires a - {key} == b - {key} && f in e.fields
    ensures a[e.key := e.fields[f]] - {key} == b[e.key := e.fields[f]] - {key}
  {
    var a', b' := a[e.key := e.fields[f]], b[e.key := e.fields[f]];
    forall k | k != key && k != e.key ensures (k in a' <==> k in b') && (k in a' ==> a'[k] == b'[k]) {
      SameOutside(a, b, {key}, k);
    }
  }

  lemma ClearHead(p: seq<Entry>, key: Key, f: Field)
    requires p != [] && p[0].key == key
    ensures Values(Clear(p, key, f), f) == Values(p[1..], f)
    ensures Values(Clear(p, key, f), Other(f)) == Values(p, Other(f))
    ensures Keys(Clear(p, key, f)) <= Keys(p)
    ensures UniqueKeys(p) ==> UniqueKeys(Clear(p, key, f))
    ensures NoEmptyEntry(p) ==> NoEmptyEntry(Clear(p, key, f))
  {
    var q := Clear(p, key, f);
    assert Other(f) in p[0].fields ==> Other(f) in p[0].fields - {f};
    if p[0].fields - {f} != map[] { assert q[1..] == p[1..]; }
  }

  /** Clearing one key says nothing about the entries of another. */
  lemma {:induction false} ClearKeepsExtra(p: seq<Entry>, key: Key, f: Field, k: Key)
    requires k != key
    ensures Extra(Clear(p, key, f), k, f) <==> Extra(p, k, f)
  {
    if p != [] {
      if p[0].key == key {
        if p[0].fields - {f} != map[] { assert Clear(p, key, f)[1..] == p[1..]; }
      } else {
        ClearKeepsExtra(p[1..], key, f, k);
        ClearEffect(p[1..], key, f);
        assert Clear(p, key, f)[1..] == Clear(p[1..], key, f);
        assert k in Values(Clear(p[1..], key, f), f) <==> k in Values(Clear(p[1..], key, f), f) - {key};
        assert k in Values(p[1..], f) <==> k in Values(p[1..], f) - {key};
      }
    }
  }

  lemma {:induction false} UniqueHasNoExtra(p: seq<Entry>, key: Key, f: Field)
    requires UniqueKeys(p)
    ensures !Extra(p, key, f)
  {
    if p != [] {
      ValuesKeys(p[1..], f);
      UniqueHasNoExtra(p[1..], key, f);
    }
  }

  /** Nor does repeating help: a later entry stays hidden behind a first one that only has the other field. */
  lemma HiddenStays(p: seq<Entry>, i: nat, key: Key, f: Field)
    requires i < |p| && p[i].key == key && (forall j :: 0 <= j < i ==> p[j].key != key)
    requires f !in p[i].fields && Other(f) in p[i].fields
    ensures Clear(p, key, f) == p
  {
    assert p[i].fields - {f} == p[i].fields;
    FirstMatch(p, i, key, f, WeightValue(0));
    assert p[..i] + [p[i]] + p[i + 1..] == p;
  }

  /** For instance, of two weights for one path the second outlives every sync that drops the path. */
  lemma DuplicateInstance(key: Key, mask: bv64)
    ensures var p := [Entry(key, map[Weight := WeightValue(1), DscpMask := MaskValue(mask)]), Entry(key, map[Weight := WeightValue(2)])];
            var once := Clear(p, key, Weight);
            Extra(p, key, Weight) && Values(once, Weight) == map[key := WeightValue(2)] && Clear(once, key, Weight) == once
  {
    var second := Entry(key, map[Weight := WeightValue(2)]);
    var p := [Entry(key, map[Weight := WeightValue(1), DscpMask := MaskValue(mask)]), second];
    var first := Entry(key, map[DscpMask := MaskValue(mask)]);
    assert p[0].fields - {Weight} == first.fields && DscpMask in first.fields;
    assert p[1..] == [second] && [second][1..] == [];
    assert Values([second], Weight) == map[key := WeightValue(2)];
    assert Clear(p, key, Weight) == [first, second];
    assert [first, second][1..] == [second];
    HiddenStays([first, second], 0, key, Weight);
  }

  // ----- One endpoint call

  /** The first entry of the key is the one set or cleared. */
  lemma {:induction false} FirstMatch(p: seq<Entry>, i: nat, key: Key, f: Field, v: Value)
    requires i <= |p| && forall j :: 0 <= j < i ==> p[j].key != key
    ensures i == |p| ==> Set(p, key, f, v) == p + [Entry(key, map[f := v])] && Clear(p, key, f) == p
    ensures i < |p| && p[i].key == key ==>
              && Set(p, key, f, v) == p[..i] + [p[i].(fields := p[i].fields[f := v])] + p[i + 1..]
              && Clear(p, key, f) == p[..i] + (var fields := p[i].fields - {f};
                                               if fields == map[] then [] else [p[i].(fields := fields)]) + p[i + 1..]
  {
    if i > 0 {
      FirstMatch(p[1..], i - 1, key, f, v);
      assert [p[0]] + p[1..] == p;
      if i < |p| { assert p[1..][..i - 1] == p[1..i] && p[1..][i..] == p[i + 1..] && [p[0]] + p[1..i] == p[..i]; }
    }
  }

  lemma BothFields(fields: map<Field, Value>)
    ensures fields == map[] <==> Weight !in fields && DscpMask !in fields
  {
    if Weight !in fields && DscpMask !in fields {
      assert forall f :: f in fields ==> f == Weight || f == DscpMask;
    }
  }

  function KeysOf(user: string, ifaces: set<string>): set<Key> {
    set i | i in ifaces :: Key(user, i)
  }

  /** The field was cleared for the interfaces in `done`, as far as clearing reaches. */
  ghost predicate ClearedFor(now: seq<Entry>, before: seq<Entry>, user: string, f: Field, done: set<string>) {
    && Values(now, f) - KeysOf(user, done) == Values(before, f) - KeysOf(user, done)
    && Values(now, Other(f)) == Values(before, Other(f))
    && (forall i :: i in done ==> (Key(user, i) in Values(now, f) <==> Extra(before, Key(user, i), f)))
    && (forall i :: i !in done ==> (Extra(now, Key(user, i), f) <==> Extra(before, Key(user, i), f)))
    && (UniqueKeys(before) ==> UniqueKeys(now))
    && (NoEmptyEntry(before) ==> NoEmptyEntry(now))
  }

  lemma ClearProgress(p: seq<Entry>, before: seq<Entry>, user: string, f: Field, done: set<string>, iface: string)
    requires ClearedFor(p, before, user, f, done) && iface !in done
    ensures ClearedFor(Clear(p, Key(user, iface), f), before, user, f, done + {iface})
  {
    var key, now := Key(user, iface), Clear(p, Key(user, iface), f);
    var seen, seen' := KeysOf(user, done), KeysOf(user, done + {iface});
    ClearEffect(p, key, f);
    assert seen' == seen + {key};
    forall k | k !in seen'
      ensures k in Values(now, f) <==> k in Values(before, f)
      ensures k in Values(now, f) ==> Values(now, f)[k] == Values(before, f)[k]
    {
      SameOutside(Values(now, f), Values(p, f), {key}, k);
      SameOutside(Values(p, f), Values(before, f), seen, k);
    }
    forall i | i in done ensures Key(user, i) in Values(now, f) <==> Extra(before, Key(user, i), f) {
      SameOutside(Values(now, f), Values(p, f), {key}, Key(user, i));
    }
    forall i | i !in done + {iface} ensures Extra(now, Key(user, i), f) <==> Extra(before, Key(user, i), f) {
      ClearKeepsExtra(p, key, f, Key(user, i));
    }
  }

  lemma SameOutside(a: map<Key, Value>, b: map<Key, Value>, keys: set<Key>, k: Key)
    requires a - keys == b - keys && k !in keys
    ensures (k in a <==> k in b) && (k in a ==> a[k] == b[k])
  {
    assert (k in a <==> k in a - keys) && (k in b <==> k in b - keys);
    assert k in a ==> a[k] == (a - keys)[k] && b[k] == (b - keys)[k];
  }

  lemma SetStep(m: map<Key, Value>, user: string, desired: map<string, Value>, todo: set<string>, iface: string)
    requires iface in todo && todo <= desired.Keys
    ensures (m + Requested(user, desired - todo))[Key(user, iface) := desired[iface]] ==
            m + Requested(user, desired - (todo - {iface}))
  {
    assert (desired - (todo - {iface})).Keys == (desired - todo).Keys + {iface};
  }

  /** Setting what is already requested and present changes nothing on the way. */
  lemma SetNothing(m: map<Key, Value>, user: string, desired: map<string, Value>, todo: set<string>, iface: string)
    requires m + Requested(user, desired) == m && iface in todo && todo <= desired.Keys
    ensures m + Requested(user, desired - todo) == m
    ensures Key(user, iface) in m && m[Key(user, iface)] == desired[iface]
  {
    assert Key(user, iface) in Requested(user, desired);
  }

  /** The values of `desired` have been set except those of the interfaces in `todo`. */
  ghost predicate SetExcept(now: seq<Entry>, before: seq<Entry>, user: string, f: Field, desired: map<string, Value>, todo: set<string>) {
    && Values(now, f) == Values(before, f) + Requested(user, desired - todo)
    && Values(now, Other(f)) == Values(before, Other(f))
    && (UniqueKeys(before) ==> UniqueKeys(now))
    && (NoEmptyEntry(before) ==> NoEmptyEntry(now))
    && (UniqueKeys(before) && Values(before, f) + Requested(user, desired) == Values(before, f) ==> now == before)
  }

  lemma SetProgress(p: seq<Entry>, before: seq<Entry>, user: string, f: Field, desired: map<string, Value>, todo: set<string>, iface: string)
    requires SetExcept(p, before, user, f, desired, todo) && iface in todo && todo <= desired.Keys
    ensures SetExcept(Set(p, Key(user, iface), f, desired[iface]), before, user, f, desired, todo - {iface})
  {
    var start := Values(before, f);
    SetEffect(p, Key(user, iface), f, desired[iface]);
    SetStep(start, user, desired, todo, iface);
    if UniqueKeys(before) && start + Requested(user, desired) == start {
      SetNothing(start, user, desired, todo, iface);
      SetAgain(p, Key(user, iface), f, desired[iface]);
    }
  }

  lemma SetStart(p: seq<Entry>, user: string, f: Field, desired: map<string, Value>)
    ensures SetExcept(p, p, user, f, desired, desired.Keys)
  {
    assert Values(p, f) + Requested(user, desired - desired.Keys) == Values(p, f);
  }

  lemma SetFinish(now: seq<Entry>, before: seq<Entry>, user: string, f: Field, desired: map<string, Value>)
    requires SetExcept(now, before, user, f, desired, {})
    ensures Values(now, f) == Values(before, f) + Requested(user, desired)
  {
    assert desired - {} == desired;
  }

  /** The user's paths no longer requested whose field a later entry of the path carries. */
  function LeftOver(p: seq<Entry>, user: string, f: Field, desired: map<string, Value>): set<Key> {
    set i | i in Ifaces(Values(p, f), user) - desired.Keys && Extra(p, Key(user, i), f) :: Key(user, i)
  }

  lemma NoLeftOver(p: seq<Entry>, user: string, f: Field, desired: map<string, Value>)
    requires UniqueKeys(p)
    ensures LeftOver(p, user, f, desired) == {}
  {
    forall k ensures !Extra(p, k, f) { UniqueHasNoExtra(p, k, f); }
  }

  /** Clearing the stale interfaces and setting the requested ones, at one key. */
  lemma SyncedValue(cleared: seq<Entry>, before: seq<Entry>, user: string, f: Field, desired: map<string, Value>, k: Key)
    requires "" !in desired
    requires ClearedFor(cleared, before, user, f, Ifaces(Values(before, f), user) - desired.Keys)
    ensures var m, left := Values(before, f), LeftOver(before, user, f, desired);
            var now := Values(cleared, f) + Requested(user, desired);
            && (k in left ==> k in now)
            && (k !in left ==> (k in now <==> k in Replace(m, user, desired))
                               && (k in now ==> now[k] == Replace(m, user, desired)[k]))
            && (k in left ==> k !in Replace(m, user, desired))
  {
    var m, stale := Values(before, f), Ifaces(Values(before, f), user) - desired.Keys;
    ReplaceExactly(m, user, desired, k);
    assert k.iface in desired && k.user == user ==> k == Key(user, k.iface);
    if k in KeysOf(user, stale) {
      assert k == Key(user, k.iface) && k.iface in stale;
    } else {
      SameOutside(Values(cleared, f), m, KeysOf(user, stale), k);
      assert k in m && Owned(k, user) ==> k.iface in Ifaces(m, user) && k == Key(user, k.iface);
    }
  }

  predicate AgreesOff(m: map<Key, Value>, target: map<Key, Value>, left: set<Key>, k: Key) {
    if k in left then k in m && k !in target else (k in m <==> k in target) && (k in m ==> m[k] == target[k])
  }

  lemma SameOff(m: map<Key, Value>, target: map<Key, Value>, left: set<Key>)
    requires forall k :: AgreesOff(m, target, left, k)
    ensures m - left == target && left <= m.Keys
  {
    forall k ensures (k in m - left <==> k in target) && (k in m - left ==> (m - left)[k] == target[k]) && (k in left ==> k in m) {
      assert AgreesOff(m, target, left, k);
    }
  }

  /** So together they are a replacement, up to what is left over. */
  lemma SyncedValues(now: seq<Entry>, cleared: seq<Entry>, before: seq<Entry>, user: string, f: Field, desired: map<string, Value>)
    requires "" !in desired
    requires ClearedFor(cleared, before, user, f, Ifaces(Values(before, f), user) - desired.Keys)
    requires Values(now, f) == Values(cleared, f) + Requested(user, desired)
    ensures var left := LeftOver(before, user, f, desired);
            Values(now, f) - left == Replace(Values(before, f), user, desired) && left <= Values(now, f).Keys
  {
    var left, target := LeftOver(before, user, f, desired), Replace(Values(before, f), user, desired);
    forall k ensures AgreesOff(Values(now, f), target, left, k) {
      SyncedValue(cleared, before, user, f, desired, k);
    }
    SameOff(Values(now, f), target, left);
  }

  /** Where nothing changes, nothing is stale and nothing is to be set. */
  lemma NothingToDo(m: map<Key, Value>, user: string, desired: map<string, Value>)
    requires Replace(m, user, desired) == m
    ensures Ifaces(m, user) <= desired.Keys && m + Requested(user, desired) == m
  {
    forall i | i in Ifaces(m, user) ensures i in desired.Keys { assert Owned(Key(user, i), user); }
  }

  datatype DscpPin = DscpPin(iface: string, dscp: seq<Option<DscpClass>>)
  datatype WeightPin = WeightPin(iface: string, weight: int)

  const IFACE_MAX := 15

  predicate ValidDscpPin(pin: DscpPin) {
    1 <= |pin.iface| <= 15 && None !in pin.dscp
  }

  predicate ValidWeightPin(pin: WeightPin) {
    1 <= |pin.iface| <= 15 && 0 <= pin.weight <= 65535
  }

  /** The requested masks by interface; a later pin for the same interface wins. */
  function DesiredMasks(pins: seq<DscpPin>): map<string, Value> {
    if pins == [] then map[]
    else
      var m, last := DesiredMasks(pins[..|pins| - 1]), pins[|pins| - 1];
      if ValidDscpPin(last) then m[last.iface := MaskValue(MaskOf(Codes(last.dscp)))] else m
  }

  function DesiredWeights(pins: seq<WeightPin>): map<string, Value> {
    if pins == [] then map[]
    else DesiredWeights(pins[..|pins| - 1])[pins[|pins| - 1].iface := WeightValue(pins[|pins| - 1].weight)]
  }

  lemma {:induction false} MaskNames(pins: seq<DscpPin>, iface: string)
    requires forall j :: 0 <= j < |pins| ==> ValidDscpPin(pins[j])
    ensures iface in DesiredMasks(pins) <==> exists j :: 0 <= j < |pins| && pins[j].iface == iface
  {
    if pins != [] {
      var init, last := pins[..|pins| - 1], pins[|pins| - 1];
      assert ValidDscpPin(last);
      assert iface in DesiredMasks(pins) <==> iface in DesiredMasks(init) || iface == last.iface;
      MaskNames(init, iface);
    }
  }

  lemma {:induction false} LastMask(pins: seq<DscpPin>, i: nat)
    requires forall j :: 0 <= j < |pins| ==> ValidDscpPin(pins[j])
    requires i < |pins| && forall j :: i < j < |pins| ==> pins[j].iface != pins[i].iface
    ensures pins[i].iface in DesiredMasks(pins) && ValidDscpPin(pins[i])
    ensures DesiredMasks(pins)[pins[i].iface] == MaskValue(MaskOf(Codes(pins[i].dscp)))
  {
    if i < |pins| - 1 { LastMask(pins[..|pins| - 1], i); }
  }

  lemma {:induction false} WeightNames(pins: seq<WeightPin>, iface: string)
    ensures iface in DesiredWeights(pins) <==> exists j :: 0 <= j < |pins| && pins[j].iface == iface
  {
    if pins != [] { WeightNames(pins[..|pins| - 1], iface); }
  }

  lemma {:induction false} LastWeight(pins: seq<WeightPin>, i: nat)
    requires i < |pins| && forall j :: i < j < |pins| ==> pins[j].iface != pins[i].iface
    ensures pins[i].iface in DesiredWeights(pins) && DesiredWeights(pins)[pins[i].iface] == WeightValue(pins[i].weight)
  {
    if i < |pins| - 1 { LastWeight(pins[..|pins| - 1], i); }
  }

  /** Once the weights are the request, the last pin of an interface gives the weight of its path. */
  lemma LastWeightWins(m: map<Key, Value>, user: string, pins: seq<WeightPin>, i: nat)
    requires forall j :: 0 <= j < |pins| ==> ValidWeightPin(pins[j])
    requires i < |pins| && forall j :: i < j < |pins| ==> pins[j].iface != pins[i].iface
    ensures var k, after := Key(user, pins[i].iface), Replace(m, user, DesiredWeights(pins));
            k in after && after[k] == WeightValue(pins[i].weight)
  {
    WeightNames(pins, "");
    LastWeight(pins, i);
    ReplaceExactly(m, user, DesiredWeights(pins), Key(user, pins[i].iface));
  }

  /** Likewise for its mask, whose bits are the codepoints of that pin's classes. */
  lemma LastMaskWins(m: map<Key, Value>, user: string, pins: seq<DscpPin>, i: nat, c: DscpClass)
    requires forall j :: 0 <= j < |pins| ==> ValidDscpPin(pins[j])
    requires i < |pins| && forall j :: i < j < |pins| ==> pins[j].iface != pins[i].iface
    ensures var k, after := Key(user, pins[i].iface), Replace(m, user, DesiredMasks(pins));
            k in after && after[k].MaskValue? && (Bit(after[k].mask, Codepoint(c)) <==> Some(c) in pins[i].dscp)
  {
    MaskNames(pins, "");
    LastMask(pins, i);
    MaskOfClasses(pins[i].dscp, Codepoint(c), c);
    ReplaceExactly(m, user, DesiredMasks(pins), Key(user, pins[i].iface));
  }

  /** And a path of the user that no pin names has neither weight nor mask. */
  lemma UnnamedPathsAreCleared(m: map<Key, Value>, user: string, weights: seq<WeightPin>, masks: seq<DscpPin>, iface: string)
    requires (forall j :: 0 <= j < |weights| ==> ValidWeightPin(weights[j])) && iface != ""
    requires forall j :: 0 <= j < |masks| ==> ValidDscpPin(masks[j])
    ensures Key(user, iface) in Replace(m, user, DesiredWeights(weights)) <==> exists j :: 0 <= j < |weights| && weights[j].iface == iface
    ensures Key(user, iface) in Replace(m, user, DesiredMasks(masks)) <==> exists j :: 0 <= j < |masks| && masks[j].iface == iface
  {
    WeightNames(weights, "");
    WeightNames(weights, iface);
    MaskNames(masks, "");
    MaskNames(masks, iface);
    ReplaceExactly(m, user, DesiredWeights(weights), Key(user, iface));
    ReplaceExactly(m, user, DesiredMasks(masks), Key(user, iface));
  }

  class Policy {
    var entries: seq<Entry>

    method SetField(key: Key, f: Field, v: Value)
      modifies this
      ensures entries == Set(old(entries), key, f, v)
    {
      for i := 0 to |entries|
        invariant entries == old(entries)
        invariant forall j :: 0 <= j < i ==> entries[j].key != key
      {
        if entries[i].key == key {
          FirstMatch(entries, i, key, f, v);
          entries := entries[i := entries[i].(fields := entries[i].fields[f := v])];
          return;
        }
      }
      FirstMatch(entries, |entries|, key, f, v);
      entries := entries + [Entry(key, map[f := v])];
    }

    method ClearField(key: Key, f: Field)
      modifies this
      ensures entries == Clear(old(entries), key, f)
    {
      ghost var any := WeightValue(0);
      for i := 0 to |entries|
        invariant entries == old(entries)
        invariant forall j :: 0 <= j < i ==> entries[j].key != key
      {
        if entries[i].key == key {
          FirstMatch(entries, i, key, f, any);
          var fields := entries[i].fields - {f};
          BothFields(fields);
          entries := entries[i := entries[i].(fields := fields)];
          if Weight !in fields && DscpMask !in fields {
            entries := entries[..i] + entries[i + 1..];
          }
          return;
        }
      }
      FirstMatch(entries, |entries|, key, f, any);
    }

    /** Drop the field from the user's first entries for the given interfaces. */
    method ClearAll(user: string, f: Field, ifaces: set<string>)
      modifies this
      ensures ClearedFor(entries, old(entries), user, f, ifaces)
      ensures ifaces == {} ==> entries == old(entries)
    {
      var todo := ifaces;
      assert ifaces - todo == {};
      while todo != {}
        invariant todo <= ifaces && ClearedFor(entries, old(entries), user, f, ifaces - todo)
        invariant ifaces == {} ==> entries == old(entries)
        decreases |todo|
      {
        ghost var some := Member(todo);
        var iface :| iface in todo;
        ClearProgress(entries, old(entries), user, f, ifaces - todo, iface);
        assert ifaces - (todo - {iface}) == (ifaces - todo) + {iface};
        ClearField(Key(user, iface), f);
        todo := todo - {iface};
      }
      assert ifaces - todo == ifaces;
    }

    /** Set the field of the user's entries to the given values. */
    method SetAll(user: string, f: Field, desired: map<string, Value>)
      modifies this
      ensures SetExcept(entries, old(entries), user, f, desired, {})
    {
      var todo := desired.Keys;
      SetStart(entries, user, f, desired);
      while todo != {}
        invariant todo <= desired.Keys && SetExcept(entries, old(entries), user, f, desired, todo)
        decreases |todo|
      {
        ghost var some := Member(todo);
        var iface :| iface in todo;
        SetProgress(entries, old(entries), user, f, desired, todo, iface);
        SetField(Key(user, iface), f, desired[iface]);
        todo := todo - {iface};
      }
    }

    /**
     Converge one field of one user to `desired`: everything else keeps its values. The user's
     paths are exactly the requested ones unless a duplicate entry of a dropped path still carries
     the field. `written` is when the server file is rewritten.
     */
    method Sync(user: string, f: Field, desired: map<string, Value>) returns (written: bool)
      requires "" !in desired
      modifies this
      ensures var left := LeftOver(old(entries), user, f, desired);
              && Values(entries, f) - left == Replace(Values(old(entries), f), user, desired)
              && left <= Values(entries, f).Keys
      ensures Values(entries, f) == Replace(Values(old(entries), f), user, desired) <==>
              LeftOver(old(entries), user, f, desired) == {}
      ensures Values(entries, Other(f)) == Values(old(entries), Other(f))
      ensures NoEmptyEntry(old(entries)) ==> NoEmptyEntry(entries)
      ensures UniqueKeys(old(entries)) ==>
                && UniqueKeys(entries) && LeftOver(old(entries), user, f, desired) == {}
                && (written <==> Values(entries, f) != Values(old(entries), f))
      ensures written <==> entries != old(entries)
    {
      var initial := entries;
      ghost var start := Values(entries, f);
      var stale := Ifaces(Values(entries, f), user) - desired.Keys;
      ClearAll(user, f, stale);
      ghost var cleared := entries;
      SetAll(user, f, desired);
      SetFinish(entries, cleared, user, f, desired);
      SyncedValues(entries, cleared, initial, user, f, desired);
      LeftOverIff(Values(entries, f), start, LeftOver(initial, user, f, desired), user, desired);
      if UniqueKeys(initial) {
        NoLeftOver(initial, user, f, desired);
        if Replace(start, user, desired) == start { NothingToDo(start, user, desired); }
      }
      written := entries != initial;
    }

    /** The DSCP endpoint. */
    method SetDscp(user: string, pins: seq<DscpPin>) returns (ok: bool)
      modifies this
      ensures ok <==> forall i :: 0 <= i < |pins| ==> ValidDscpPin(pins[i])
      ensures !ok ==> entries == old(entries)
      ensures ok ==> Values(entries, DscpMask) - LeftOver(old(entries), user, DscpMask, DesiredMasks(pins)) ==
                     Replace(Values(old(entries), DscpMask), user, DesiredMasks(pins))
      ensures ok ==> (Values(entries, DscpMask) == Replace(Values(old(entries), DscpMask), user, DesiredMasks(pins)) <==>
                      LeftOver(old(entries), user, DscpMask, DesiredMasks(pins)) == {})
      ensures Values(entries, Weight) == Values(old(entries), Weight)
      ensures NoEmptyEntry(old(entries)) ==> NoEmptyEntry(entries)
      ensures UniqueKeys(old(entries)) ==>
                UniqueKeys(entries) && (ok ==> LeftOver(old(entries), user, DscpMask, DesiredMasks(pins)) == {})
    {
      var desired: map<string, Value> := map[];
      for i := 0 to |pins|
        invariant entries == old(entries)
        invariant forall j :: 0 <= j < i ==> ValidDscpPin(pins[j])
        invariant desired == DesiredMasks(pins[..i]) && "" !in desired
      {
        if pins[i].iface == "" || |pins[i].iface| > IFACE_MAX {
          return false;
        }
        var mask := Mask(pins[i].dscp);
        if mask.None? {
          return false;
        }
        desired := desired[pins[i].iface := MaskValue(mask.value)];
        assert pins[..i + 1][..i] == pins[..i];
      }
      assert pins[..|pins|] == pins;
      var written := Sync(user, DscpMask, desired);
      ok := true;
    }

    /** The weight endpoint. */
    method SetWeights(user: string, pins: seq<WeightPin>) returns (ok: bool)
      modifies this
      ensures ok <==> forall i :: 0 <= i < |pins| ==> ValidWeightPin(pins[i])
      ensures !ok ==> entries == old(entries)
      ensures ok ==> Values(entries, Weight) - LeftOver(old(entries), user, Weight, DesiredWeights(pins)) ==
                     Replace(Values(old(entries), Weight), user, DesiredWeights(pins))
      ensures ok ==> (Values(entries, Weight) == Replace(Values(old(entries), Weight), user, DesiredWeights(pins)) <==>
                      LeftOver(old(entries), user, Weight, DesiredWeights(pins)) == {})
      ensures Values(entries, DscpMask) == Values(old(entries), DscpMask)
      ensures NoEmptyEntry(old(entries)) ==> NoEmptyEntry(entries)
      ensures UniqueKeys(old(entries)) ==>
                UniqueKeys(entries) && (ok ==> LeftOver(old(entries), user, Weight, DesiredWeights(pins)) == {})
    {
      var desired: map<string, Value> := map[];
      for i := 0 to |pins|
        invariant entries == old(entries)
        invariant forall j :: 0 <= j < i ==> ValidWeightPin(pins[j])
        invariant desired == DesiredWeights(pins[..i]) && "" !in desired
      {
        if pins[i].iface == "" || |pins[i].iface| > IFACE_MAX || !(0 <= pins[i].weight <= 65535) {
          return false;
        }
        desired := desired[pins[i].iface := WeightValue(pins[i].weight)];
        assert pins[..i + 1][..i] == pins[..i];
      }
      assert pins[..|pins|] == pins;
      var written := Sync(user, Weight, desired);
      ok := true;
    }
  }

  lemma LeftOverIff(now: map<Key, Value>, start: map<Key, Value>, left: set<Key>, user: string, desired: map<string, Value>)
    requires now - left == Replace(start, user, desired) && left <= now.Keys
    ensures now == Replace(start, user, desired) <==> left == {}
  {
    if left == {} {
      assert now - left == now;
    } else {
      var some := Member(left);
      assert some in now && some !in now - left;
    }
  }

  // ----- Runs of requests

  /** What `Replace` keeps and what it sets, key by key. */
  lemma ReplaceExactly(m: map<Key, Value>, user: string, desired: map<string, Value>, k: Key)
    requires "" !in desired
    ensures Owned(k, user) ==>
              (k in Replace(m, user, desired) <==> k.iface in desired)
              && (k.iface in desired ==> Replace(m, user, desired)[k] == desired[k.iface])
    ensures !Owned(k, user) ==>
              (k in Replace(m, user, desired) <==> k in m) && (k in m ==> Replace(m, user, desired)[k] == m[k])
  {
    if Owned(k, user) && k.iface in desired { assert k == Key(user, k.iface); }
  }

  lemma ReplaceIdempotent(m: map<Key, Value>, user: string, desired: map<string, Value>)
    requires "" !in desired
    ensures Replace(Replace(m, user, desired), user, desired) == Replace(m, user, desired)
  {
    var once := Replace(m, user, desired);
    var twice := Replace(once, user, desired);
    forall k ensures (k in twice <==> k in once) && (k in once ==> twice[k] == once[k]) {
      ReplaceExactly(m, user, desired, k);
      ReplaceExactly(once, user, desired, k);
    }
  }

  lemma ReplaceCommutes(m: map<Key, Value>, u: string, d: map<string, Value>, v: string, e: map<string, Value>)
    requires u != v && "" !in d && "" !in e
    ensures Replace(Replace(m, u, d), v, e) == Replace(Replace(m, v, e), u, d)
  {
    var a, b := Replace(Replace(m, u, d), v, e), Replace(Replace(m, v, e), u, d);
    forall k ensures (k in a <==> k in b) && (k in a ==> a[k] == b[k]) {
      ReplaceExactly(m, u, d, k);
      ReplaceExactly(m, v, e, k);
      ReplaceExactly(Replace(m, u, d), v, e, k);
      ReplaceExactly(Replace(m, v, e), u, d, k);
    }
  }

  datatype Request = Request(user: string, field: Field, desired: map<string, Value>)

  /** The abstract state: one independent map per field. */
  datatype Maps = Maps(weights: map<Key, Value>, masks: map<Key, Value>) {
    function Of(f: Field): map<Key, Value> {
      if f == Weight then weights else masks
    }
  }

  function Apply(m: Maps, r: Request): Maps {
    var replaced := Replace(m.Of(r.field), r.user, r.desired);
    if r.field == Weight then m.(weights := replaced) else m.(masks := replaced)
  }

  function Run(m: Maps, rs: seq<Request>): Maps {
    if rs == [] then m else Apply(Run(m, rs[..|rs| - 1]), rs[|rs| - 1])
  }

  /** The user's last request for the field in a run, if any. */
  function LastRequest(rs: seq<Request>, user: string, f: Field): Option<map<string, Value>> {
    if rs == [] then None
    else
      var last := rs[|rs| - 1];
      if last.user == user && last.field == f then Some(last.desired) else LastRequest(rs[..|rs| - 1], user, f)
  }

  /** `after` has at k what the last request asks for, or what `before` has if there was none. */
  ghost predicate HoldsRequest(before: map<Key, Value>, last: Option<map<string, Value>>, after: map<Key, Value>, k: Key) {
    if last.Some? then
      (k in after <==> k.iface in last.value) && (k in after ==> after[k] == last.value[k.iface])
    else
      (k in after <==> k in before) && (k in after ==> after[k] == before[k])
  }

  /**
   After any run of requests, by any users and for both fields, each user's interfaces carry
   exactly that user's last request for the field, or their initial values if there was none.
   */
  lemma {:induction false} LastRequestWins(m: Maps, rs: seq<Request>, f: Field, k: Key)
    requires k.iface != "" && forall i :: 0 <= i < |rs| ==> "" !in rs[i].desired
    ensures HoldsRequest(m.Of(f), LastRequest(rs, k.user, f), Run(m, rs).Of(f), k)
  {
    if rs != [] {
      var init, last := rs[..|rs| - 1], rs[|rs| - 1];
      LastRequestWins(m, init, f, k);
      ReplaceExactly(Run(m, init).Of(last.field), last.user, last.desired, k);
    }
  }
}
