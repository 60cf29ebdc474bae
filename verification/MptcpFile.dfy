/**
 The text of the sysctl file that `/mptcp` persists: lines that name a managed
 setting are dropped, everything else is kept in order, and one line per
 applied setting is appended.
 */
module MptcpFile {
  import opened Lists
  import opened Text

  datatype Setting = Setting(key: string, value: string)

  // ----- Lines

  /** Characters that end a line for Python's `str.splitlines`. */
  predicate Break(c: char) {
    '\n' <= c <= '\r' || '\U{1c}' <= c <= '\U{1e}' || c == '\U{85}' || c == '\U{2028}' || c == '\U{2029}'
  }

  /** The line breaks of Python's `str.splitlines`, by code point. */
  lemma BreakCodes(c: char)
    ensures Break(c) <==> c as int in {10, 11, 12, 13, 28, 29, 30, 133, 8232, 8233}
  {
  }

  predicate NoBreak(s: string) {
    forall i :: 0 <= i < |s| ==> !Break(s[i])
  }

  /** Length of the first line, with its ending; a carriage return and a line feed are one ending. */
  function FirstLine(s: string): (n: nat)
    requires s != ""
    ensures 0 < n <= |s|
  {
    if Break(s[0]) then if s[0] == '\r' && |s| > 1 && s[1] == '\n' then 2 else 1
    else if |s| == 1 then 1 else 1 + FirstLine(s[1..])
  }

  /** `s.splitlines(keepends=True)`. */
  function Lines(s: string): seq<string> {
    if s == "" then [] else [s[..FirstLine(s)]] + Lines(s[FirstLine(s)..])
  }

  // ----- Rewriting the file

  predicate Managed(line: string) {
    Contains(line, "net.mptcp") || Contains(line, "net.ipv4.tcp_congestion_control")
  }

  /** The lines of a file that are carried over, joined. */
  function Kept(s: string): string {
    Join(Filter(Lines(s), line => !Managed(line)))
  }

  function Entry(s: Setting): string {
    s.key + "=" + s.value + "\n"
  }

  function Entries(settings: seq<Setting>): seq<string> {
    if settings == [] then [] else [Entry(settings[0])] + Entries(settings[1..])
  }

  function NewContent(before: string, settings: seq<Setting>): string {
    Join(Filter(Lines(before), line => !Managed(line)) + Entries(settings))
  }

  /** What the service asks for: at least one setting, all with managed names and one-line values. */
  predicate Writable(settings: seq<Setting>) {
    && settings != []
    && forall s :: s in settings ==> OneLine(s)
  }

  predicate OneLine(s: Setting) {
    Managed(s.key) && NoBreak(s.key) && '=' !in s.key && NoBreak(s.value)
  }

  // ----- Reading it back

  function ReadEntry(line: string): Setting {
    var e := Find(line, '=');
    if e == |line| then Setting(line, "")
    else
      var value := line[e + 1..];
      Setting(line[..e], if value != "" && value[|value| - 1] == '\n' then value[..|value| - 1] else value)
  }

  function ReadEntries(lines: seq<string>): seq<Setting> {
    if lines == [] then [] else [ReadEntry(lines[0])] + ReadEntries(lines[1..])
  }

  /** The managed settings a file holds. */
  function Settings(s: string): seq<Setting> {
    ReadEntries(Filter(Lines(s), Managed))
  }

  /** A text to which a new line can be appended. */
  predicate Ends(s: string) {
    s == "" || Break(s[|s| - 1])
  }

  /** The complete lines of a text: without an unterminated last line. */
  function Complete(s: string): (p: string)
    ensures Ends(p) && p <= s && forall i :: |p| <= i < |s| ==> !Break(s[i])
    ensures p == s <==> Ends(s)
  {
    if Ends(s) then s else Complete(s[..|s| - 1])
  }

  /** A line is managed exactly when one of the two names stands somewhere in it. */
  lemma ManagedIff(line: string)
    ensures Managed(line) <==>
            || (exists a, b :: Splits(line, a, "net.mptcp", b))
            || (exists a, b :: Splits(line, a, "net.ipv4.tcp_congestion_control", b))
  {
    ContainsIff(line, "net.mptcp");
    ContainsIff(line, "net.ipv4.tcp_congestion_control");
  }

  /** For instance, a carriage return with its line feed and a line separator end a line, a tab does not. */
  lemma LinesInstance()
    ensures Lines("a\r\nb\tc\U{2028}d") == ["a\r\n", "b\tc\U{2028}", "d"]
  {
    var s := "a\r\nb\tc\U{2028}d";
    var t := s[3..];
    assert t == "b\tc\U{2028}d" && t[4..] == "d";
    assert FirstLine(s) == 3 by { assert s[1..][0] == '\r' && s[1..][1] == '\n'; }
    assert FirstLine(t[3..]) == 1 && t[2..][1..] == t[3..] && t[1..][1..] == t[2..];
    assert FirstLine(t[2..]) == 2 && FirstLine(t[1..]) == 3;
    assert FirstLine(t) == 4;
    assert s[..3] == "a\r\n" && t[..4] == "b\tc\U{2028}";
    assert FirstLine("d") == 1 && "d"[..1] == "d" && "d"[1..] == "";
  }

  // ----- Splitting and joining

  /** No line runs across the boundary. */
  predicate Seam(a: string, b: string) {
    Ends(a) && !(a != "" && a[|a| - 1] == '\r' && b != "" && b[0] == '\n')
  }

  lemma {:induction false} FirstLineAppend(a: string, b: string)
    requires a != "" && (FirstLine(a) < |a| || Seam(a, b))
    ensures FirstLine(a + b) == FirstLine(a)
  {
    if |a| > 1 && !Break(a[0]) {
      FirstLineAppend(a[1..], b);
      assert (a + b)[1..] == a[1..] + b;
    }
  }

  lemma LinesCons(s: string, first: string, rest: string)
    requires first != "" && s == first + rest && FirstLine(s) == |first|
    ensures Lines(s) == [first] + Lines(rest)
  {
    assert s[..|first|] == first && s[|first|..] == rest;
  }

  lemma SeamOfRest(a: string, b: string, n: nat)
    requires n <= |a| && Seam(a, b)
    ensures Seam(a[n..], b)
  {
    assert a[n..] != "" ==> a[n..][|a[n..]| - 1] == a[|a| - 1];
  }

  lemma {:induction false} LinesAppend(a: string, b: string)
    requires Seam(a, b)
    ensures Lines(a + b) == Lines(a) + Lines(b)
  {
    if a == "" {
      assert a + b == b;
    } else {
      var n := FirstLine(a);
      SeamOfRest(a, b, n);
      LinesAppend(a[n..], b);
      LinesStep(a, b, n);
      Associate([a[..n]], Lines(a[n..]), Lines(b));
    }
  }

  lemma LinesStep(a: string, b: string, n: nat)
    requires a != "" && Seam(a, b) && n == FirstLine(a)
    ensures Lines(a + b) == [a[..n]] + Lines(a[n..] + b)
  {
    FirstLineAppend(a, b);
    LinesCons(a + b, a[..n], a[n..] + b);
  }

  /** Splitting loses nothing. */
  lemma {:induction false} JoinLines(s: string)
    ensures Join(Lines(s)) == s
  {
    if s != "" {
      JoinLines(s[FirstLine(s)..]);
      assert s == s[..FirstLine(s)] + s[FirstLine(s)..];
    }
  }

  lemma KeptAppend(a: string, b: string)
    requires Seam(a, b)
    ensures Kept(a + b) == Kept(a) + Kept(b)
    ensures Filter(Lines(a + b), Managed) == Filter(Lines(a), Managed) + Filter(Lines(b), Managed)
  {
    LinesAppend(a, b);
    FilterAppend(Lines(a), Lines(b), line => !Managed(line));
    FilterAppend(Lines(a), Lines(b), Managed);
    JoinAppend(Filter(Lines(a), line => !Managed(line)), Filter(Lines(b), line => !Managed(line)));
  }

  lemma KeptLine(s: string)
    requires s != "" && FirstLine(s) == |s|
    ensures Lines(s) == [s]
    ensures Kept(s) == if Managed(s) then "" else s
    ensures Filter(Lines(s), Managed) == if Managed(s) then [s] else []
  {
    assert s[..|s|] == s;
    assert Filter([s], line => !Managed(line)) == if Managed(s) then [] else [s];
    assert Join([s]) == s;
  }

  lemma {:induction false} UnbrokenLine(s: string)
    requires s != "" && (NoBreak(s) || (s[|s| - 1] == '\n' && NoBreak(s[..|s| - 1])))
    ensures FirstLine(s) == |s|
  {
    if |s| > 1 {
      assert s[0] == s[..|s| - 1][0];
      assert NoBreak(s) || s[1..][..|s| - 2] == s[..|s| - 1][1..];
      UnbrokenLine(s[1..]);
    }
  }

  lemma ContainsWithin(a: string, s: string, b: string, p: string)
    requires Contains(s, p)
    ensures Contains(a + s + b, p)
  {
    var k :| 0 <= k <= |s| - |p| && OccursAt(p, s, k);
    assert (a + s + b)[|a| + k..|a| + k + |p|] == s[k..k + |p|];
    assert OccursAt(p, a + s + b, |a| + k);
  }

  lemma ManagedWithin(a: string, s: string, b: string)
    requires Managed(s)
    ensures Managed(a + s + b)
  {
    if Contains(s, "net.mptcp") {
      ContainsWithin(a, s, b, "net.mptcp");
    } else {
      ContainsWithin(a, s, b, "net.ipv4.tcp_congestion_control");
    }
  }

  // ----- What is kept stays kept

  /** A line feed after a line does not make it name a managed setting. */
  lemma FeedNotManaged(line: string)
    ensures Managed(line + "\n") == Managed(line)
  {
    assert "" + line + "\n" == line + "\n";
    if Managed(line) {
      ManagedWithin("", line, "\n");
    } else if Contains(line + "\n", "net.mptcp") {
      FeedNotContained(line, "net.mptcp");
    } else if Contains(line + "\n", "net.ipv4.tcp_congestion_control") {
      FeedNotContained(line, "net.ipv4.tcp_congestion_control");
    }
  }

  lemma FeedNotContained(line: string, p: string)
    requires Contains(line + "\n", p) && p != "" && p[|p| - 1] != '\n'
    ensures Contains(line, p)
  {
    var s := line + "\n";
    var k :| 0 <= k <= |s| - |p| && OccursAt(p, s, k);
    assert p[|p| - 1] == s[k..k + |p|][|p| - 1] == s[k + |p| - 1];
    assert line[k..k + |p|] == s[k..k + |p|];
    assert OccursAt(p, line, k);
  }

  /** Dropping the managed lines a second time drops nothing more. */
  lemma {:induction false} KeptTwice(s: string)
    ensures Kept(Kept(s)) == Kept(s)
  {
    if s != "" {
      var n := FirstLine(s);
      var line, rest := s[..n], s[n..];
      KeptTwice(rest);
      SplitFirstLine(s);
      if Seam(line, rest) {
        KeptOfSplit(s);
        KeptLine(line);
        if !Managed(line) {
          KeptPrepend(line, Kept(rest));
        } else {
          assert "" + Kept(rest) == Kept(rest);
        }
      } else {
        assert rest == "";
        assert s == line;
        KeptLine(s);
      }
    }
  }

  /** The first line of a text, by itself, is one line; an unterminated one is the last. */
  lemma {:induction false} SplitFirstLine(s: string)
    requires s != ""
    ensures FirstLine(s[..FirstLine(s)]) == FirstLine(s)
    ensures s == s[..FirstLine(s)] + s[FirstLine(s)..]
    ensures !Seam(s[..FirstLine(s)], s[FirstLine(s)..]) ==> FirstLine(s) == |s|
  {
    if !Break(s[0]) && |s| > 1 {
      SplitFirstLine(s[1..]);
      assert s[..FirstLine(s)][1..] == s[1..][..FirstLine(s) - 1];
      assert s[1..][FirstLine(s) - 1..] == s[FirstLine(s)..];
    }
  }

  lemma KeptOfSplit(s: string)
    requires s != ""
    ensures Kept(s) == Kept(s[..FirstLine(s)]) + Kept(s[FirstLine(s)..])
  {
    var line, rest := s[..FirstLine(s)], s[FirstLine(s)..];
    SplitFirstLine(s);
    if Seam(line, rest) {
      KeptAppend(line, rest);
    } else {
      assert rest == "" && line == s;
    }
  }

  lemma KeptPrepend(line: string, k: string)
    requires line != "" && FirstLine(line) == |line| && Ends(line) && !Managed(line) && Kept(k) == k
    ensures Kept(line + k) == line + k
  {
    if Seam(line, k) {
      KeptLine(line);
      KeptAppend(line, k);
    } else {
      KeptFused(line, k);
    }
  }

  /** A carriage return has lost the line that followed it and now meets a line feed. */
  lemma KeptFused(line: string, k: string)
    requires line != "" && FirstLine(line) == |line| && line[|line| - 1] == '\r' && !Managed(line)
    requires k != "" && k[0] == '\n' && Kept(k) == k
    ensures Kept(line + k) == line + k
  {
    var joined, after := line + "\n", k[1..];
    assert Kept(joined) == joined by {
      FeedNotManaged(line);
      CarriageReturnLineFeed(line);
      KeptLine(joined);
    }
    assert k == "\n" + after;
    assert Kept(after) == after by {
      KeptLine("\n");
      NotManagedFeed();
      KeptAppend("\n", after);
    }
    KeptAppend(joined, after);
    Associate(line, "\n", after);
  }

  lemma NotManagedFeed()
    ensures !Managed("\n")
  {
  }

  lemma {:induction false} CarriageReturnLineFeed(line: string)
    requires line != "" && FirstLine(line) == |line| && line[|line| - 1] == '\r'
    ensures FirstLine(line + "\n") == |line| + 1
  {
    if !Break(line[0]) {
      CarriageReturnLineFeed(line[1..]);
      assert (line + "\n")[1..] == line[1..] + "\n";
    }
  }

  lemma {:induction false} KeepingAll(lines: seq<string>)
    requires forall i :: 0 <= i < |lines| ==> lines[i] != ""
    ensures |Join(Filter(lines, line => !Managed(line)))| <= |Join(lines)|
    ensures |Join(Filter(lines, line => !Managed(line)))| == |Join(lines)| ==> Filter(lines, Managed) == []
  {
    if lines != [] {
      KeepingAll(lines[1..]);
    }
  }

  lemma {:induction false} LinesNotEmpty(s: string)
    ensures forall i :: 0 <= i < |Lines(s)| ==> Lines(s)[i] != ""
  {
    if s != "" { LinesNotEmpty(s[FirstLine(s)..]); }
  }

  /** Keeping never lengthens a text, and keeping all of it means no line was managed. */
  lemma KeptLength(s: string)
    ensures |Kept(s)| <= |s|
    ensures Kept(s) == s ==> Filter(Lines(s), Managed) == []
  {
    LinesNotEmpty(s);
    JoinLines(s);
    KeepingAll(Lines(s));
  }

  lemma UnterminatedSeam(p: string, x: string)
    requires Ends(p) && NoBreak(x)
    ensures Seam(p, x)
  {
  }

  /** The complete lines of a kept text are all kept. */
  lemma CompleteKept(k: string)
    requires Kept(k) == k
    ensures Kept(Complete(k)) == Complete(k)
    ensures Filter(Lines(Complete(k)), Managed) == []
  {
    var p := Complete(k);
    var x := k[|p|..];
    UnterminatedSeam(p, x);
    assert k == p + x;
    KeptAppend(p, x);
    KeptLength(p);
    KeptLength(x);
    assert Kept(p) == k[..|p|];
  }

  // ----- The appended lines

  lemma EntryLine(s: Setting)
    requires OneLine(s)
    ensures s.key != "" && Entry(s) != "" && !Break(Entry(s)[0]) && Ends(Entry(s)) && Entry(s)[|Entry(s)| - 1] == '\n'
    ensures NoBreak(Entry(s)[..|Entry(s)| - 1]) && Managed(Entry(s))
  {
    assert s.key != "";
    assert Entry(s)[..|Entry(s)| - 1] == s.key + "=" + s.value;
    ManagedWithin("", s.key, "=" + s.value + "\n");
    assert "" + s.key + ("=" + s.value + "\n") == Entry(s);
  }

  /** The lines appended after an unterminated line `x`: the first one is glued to it. */
  lemma {:induction false} EntriesLines(x: string, settings: seq<Setting>)
    requires NoBreak(x) && Writable(settings)
    ensures Join(Entries(settings)) != "" && !Break(Join(Entries(settings))[0])
    ensures Kept(x + Join(Entries(settings))) == ""
    ensures Filter(Lines(x + Join(Entries(settings))), Managed) == [x + Entry(settings[0])] + Entries(settings[1..])
    decreases |settings|
  {
    var entry, rest := Entry(settings[0]), settings[1..];
    GluedLine(x, settings[0]);
    if rest == [] {
      assert Join(Entries(settings)) == entry;
    } else {
      EntriesLines("", rest);
      assert "" + Join(Entries(rest)) == Join(Entries(rest));
      assert "" + Entry(rest[0]) == Entry(rest[0]);
      Associate(x, entry, Join(Entries(rest)));
      assert (x + entry)[|x + entry| - 1] == '\n';
      KeptAppend(x + entry, Join(Entries(rest)));
    }
  }

  lemma GluedLine(x: string, s: Setting)
    requires NoBreak(x) && OneLine(s)
    ensures Entry(s) != "" && !Break(Entry(s)[0]) && Ends(x + Entry(s)) && Entry(s)[|Entry(s)| - 1] == '\n'
    ensures Kept(x + Entry(s)) == "" && Filter(Lines(x + Entry(s)), Managed) == [x + Entry(s)]
  {
    var t := x + Entry(s);
    EntryLine(s);
    assert t[..|t| - 1] == x + Entry(s)[..|Entry(s)| - 1];
    UnbrokenLine(t);
    ManagedWithin(x, Entry(s), "");
    assert x + Entry(s) + "" == t;
    KeptLine(t);
  }

  lemma ReadAt(line: string, e: nat, value: string)
    requires e < |line| && line[e..] == "=" + value + "\n" && forall i :: 0 <= i < e ==> line[i] != '='
    ensures ReadEntry(line) == Setting(line[..e], value)
  {
    assert line[e] == line[e..][0];
    FindIs(line, '=', e);
    assert line[e + 1..] == line[e..][1..] == value + "\n";
    assert (value + "\n")[..|value|] == value;
  }

  lemma PrefixNotManaged(x: string, e: nat)
    requires e <= |x| && !Managed(x)
    ensures !Managed(x[..e])
  {
    assert "" + x[..e] + x[e..] == x;
    if Managed(x[..e]) {
      ManagedWithin("", x[..e], x[e..]);
    }
  }

  /** A line reads back as its setting exactly when nothing was glued in front of it. */
  lemma ReadEntryBack(x: string, s: Setting)
    requires OneLine(s) && !Managed(x)
    ensures ReadEntry(x + Entry(s)) == s <==> x == ""
  {
    var line := x + Entry(s);
    var e := Find(x, '=');
    if e < |x| {
      FindIs(line, '=', e);
      assert line[..e] == x[..e];
      PrefixNotManaged(x, e);
    } else {
      ReadGlued(x, s);
    }
  }

  lemma ReadGlued(x: string, s: Setting)
    requires OneLine(s) && forall i :: 0 <= i < |x| ==> x[i] != '='
    ensures ReadEntry(x + Entry(s)) == Setting(x + s.key, s.value)
    ensures Setting(x + s.key, s.value) == s <==> x == ""
  {
    var name := x + s.key;
    var line := x + Entry(s);
    assert forall i :: 0 <= i < |s.key| ==> s.key[i] != '=';
    assert line == name + ("=" + s.value + "\n");
    assert line[..|name|] == name;
    ReadAt(line, |name|, s.value);
    if x == "" { assert name == s.key; } else { assert |name| > |s.key|; }
  }

  lemma ReadEntryAlone(s: Setting)
    requires OneLine(s)
    ensures ReadEntry(Entry(s)) == s
  {
    assert "" + Entry(s) == Entry(s);
    ReadGlued("", s);
  }

  lemma {:induction false} ReadEntriesBack(settings: seq<Setting>)
    requires forall s :: s in settings ==> OneLine(s)
    ensures ReadEntries(Entries(settings)) == settings
  {
    if settings != [] {
      ReadEntryAlone(settings[0]);
      ReadEntriesBack(settings[1..]);
    }
  }

  // ----- Main results

  lemma NewContentSplit(before: string, settings: seq<Setting>)
    ensures NewContent(before, settings) == Kept(before) + Join(Entries(settings))
  {
    JoinAppend(Filter(Lines(before), line => !Managed(line)), Entries(settings));
  }

  lemma NewContentLines(before: string, settings: seq<Setting>)
    requires Writable(settings)
    ensures Kept(NewContent(before, settings)) == Complete(Kept(before))
    ensures Filter(Lines(NewContent(before, settings)), Managed) ==
            [Kept(before)[|Complete(Kept(before))|..] + Entry(settings[0])] + Entries(settings[1..])
  {
    var k := Kept(before);
    var p := Complete(k);
    var x, b := k[|p|..], Join(Entries(settings));
    NewContentSplit(before, settings);
    KeptTwice(before);
    CompleteKept(k);
    EntriesLines(x, settings);
    assert k == p + x;
    Associate(p, x, b);
    assert x + b != "" && !Break((x + b)[0]);
    KeptAppend(p, x + b);
  }

  /** The rewritten file starts with the kept lines of the old one; rewriting it again keeps only those that are complete. */
  lemma KeptAfterRewrite(before: string, settings: seq<Setting>)
    requires Writable(settings)
    ensures Kept(before) <= NewContent(before, settings)
    ensures Kept(NewContent(before, settings)) == Complete(Kept(before))
  {
    NewContentSplit(before, settings);
    NewContentLines(before, settings);
  }

  /** Only the last request counts, and repeating one changes nothing, exactly when the kept text is not cut off mid-line. */
  lemma LastRewriteWinsIff(before: string, first: seq<Setting>, second: seq<Setting>)
    requires Writable(first) && Writable(second)
    ensures NewContent(NewContent(before, first), second) == NewContent(before, second) <==> Ends(Kept(before))
  {
    NewContentLines(before, first);
    NewContentSplit(before, second);
    NewContentSplit(NewContent(before, first), second);
  }

  /** The file reads back as the requested settings, in order, under the same condition. */
  lemma SettingsReadBackIff(before: string, settings: seq<Setting>)
    requires Writable(settings)
    ensures Settings(NewContent(before, settings)) == settings <==> Ends(Kept(before))
  {
    var k := Kept(before);
    var x := k[|Complete(k)|..];
    NewContentLines(before, settings);
    assert !Managed(x) by { TailNotManaged(before); }
    ReadEntryBack(x, settings[0]);
    ReadEntriesBack(settings[1..]);
    var first := [x + Entry(settings[0])];
    assert Settings(NewContent(before, settings)) == [ReadEntry(first[0])] + settings[1..];
  }

  /** The unterminated end of a kept text names no managed setting. */
  lemma TailNotManaged(before: string)
    ensures !Managed(Kept(before)[|Complete(Kept(before))|..])
  {
    var k := Kept(before);
    var p := Complete(k);
    var x := k[|p|..];
    KeptTwice(before);
    CompleteKept(k);
    UnterminatedSeam(p, x);
    assert k == p + x;
    KeptAppend(p, x);
    assert Kept(x) == k[|p|..];
    if x != "" {
      UnbrokenLine(x);
      KeptLine(x);
    }
  }

  lemma {:induction false} KeptEnds(s: string)
    requires Ends(s)
    ensures Ends(Kept(s))
  {
    if s != "" {
      var n := FirstLine(s);
      var line, rest := s[..n], s[n..];
      SplitFirstLine(s);
      assert rest != "" ==> rest[|rest| - 1] == s[|s| - 1];
      KeptEnds(rest);
      KeptOfSplit(s);
      LineEnds(s);
      KeptLineEnds(line);
      EndsAppend(Kept(line), Kept(rest));
    }
  }

  /** The first line of a text that can be appended to ends in a line break. */
  lemma LineEnds(s: string)
    requires s != "" && Ends(s)
    ensures Ends(s[..FirstLine(s)])
  {
    SplitFirstLine(s);
    assert FirstLine(s) == |s| ==> s[..FirstLine(s)] == s;
  }

  lemma KeptLineEnds(line: string)
    requires line != "" && FirstLine(line) == |line| && Ends(line)
    ensures Ends(Kept(line))
  {
    KeptLine(line);
  }

  lemma EndsAppend(a: string, b: string)
    requires Ends(a) && Ends(b)
    ensures Ends(a + b)
  {
    assert b != "" ==> (a + b)[|a + b| - 1] == b[|b| - 1];
    assert b == "" ==> a + b == a;
  }

  lemma KeptTail(p: string, x: string)
    requires Ends(p) && x != "" && NoBreak(x)
    ensures Ends(Kept(p + x)) <==> Managed(x)
  {
    UnterminatedSeam(p, x);
    KeptAppend(p, x);
    UnbrokenLine(x);
    KeptLine(x);
    KeptEnds(p);
    if Managed(x) {
      assert Kept(p) + "" == Kept(p);
    } else {
      assert (Kept(p) + x)[|Kept(p) + x| - 1] == x[|x| - 1];
    }
  }

  /** The condition, read off the old file: it ends in a line break, is empty, or its last line is a managed one. */
  lemma KeptEndsIff(before: string)
    ensures Ends(Kept(before)) <==> Ends(before) || Managed(before[|Complete(before)|..])
  {
    var p := Complete(before);
    var x := before[|p|..];
    assert before == p + x;
    if x == "" {
      KeptEnds(p);
    } else {
      KeptTail(p, x);
    }
  }

  lemma TextX()
    ensures !Managed("x") && Lines("x") == ["x"] && Kept("x") == "x" && !Ends("x") && Complete("x") == ""
  {
    UnbrokenLine("x");
    KeptLine("x");
    assert "x"[..0] == "";
  }

  /**
   For instance, after a last line "x" without its ending, the first setting is glued to it and
   read back under another name, and repeating the request changes the file: the line is lost.
   */
  lemma GluedInstance(settings: seq<Setting>)
    requires Writable(settings)
    ensures var once := NewContent("x", settings);
            && once == "x" + Join(Entries(settings))
            && Settings(once) != settings
            && NewContent(once, settings) == Join(Entries(settings)) != once
  {
    TextX();
    var b := Join(Entries(settings));
    NewContentSplit("x", settings);
    SettingsReadBackIff("x", settings);
    KeptAfterRewrite("x", settings);
    NewContentSplit(NewContent("x", settings), settings);
    assert "" + b == b && |"x" + b| == |b| + 1;
  }
}
