/**
 Runs of `/mptcp` requests under arbitrary faults: what the settings file and
 the kernel hold after them.
 */
module MptcpRuns {
  import opened Options
  import opened MptcpFile
  import opened Mptcp
  import opened MptcpTransaction

  datatype State = State(kernel: Kernel, files: Files)

  datatype Event = Event(request: Request, machine: Machine, reply: Reply)

  ghost predicate Step(before: State, e: Event, after: State) {
    Outcome(before.kernel, before.files, after.kernel, after.files, e.request, e.machine, e.reply)
  }

  /** A run in which no rollback is left incomplete or cut short. */
  ghost predicate IsRun(hosts: seq<State>, events: seq<Event>) {
    && |hosts| == |events| + 1
    && forall i :: 0 <= i < |events| ==> Step(hosts[i], events[i], hosts[i + 1]) && Clean(events[i].reply)
  }

  /** The settings file can be read, and its unrelated part is not cut off mid-line. */
  predicate Sound(h: State) {
    SysctlFile in h.files && h.files[SysctlFile].Utf8? && Ends(Kept(FileText(h)))
  }

  function FileText(h: State): string
    requires SysctlFile in h.files && h.files[SysctlFile].Utf8?
  {
    h.files[SysctlFile].text
  }

  /** The file holds exactly these settings, and the kernel has them live. */
  predicate Live(h: State, settings: seq<Setting>)
    requires Sound(h)
  {
    Settings(FileText(h)) == settings && SettingsHold(h.kernel, settings)
  }

  /** The last request that succeeded. */
  function LastDone(events: seq<Event>): Option<Event> {
    if events == [] then None
    else if events[|events| - 1].reply.Done? then Some(events[|events| - 1])
    else LastDone(events[..|events| - 1])
  }

  /** A success leaves the unrelated part of a sound file alone, and file and kernel hold the plan's settings. */
  lemma CommitIsLive(before: State, after: State, p: Plan, restart: bool)
    requires Committed(before.files, after.kernel, after.files, p, restart) && Sound(before)
    ensures Sound(after) && Kept(FileText(after)) == Kept(FileText(before))
    ensures FileText(after) == NewContent(FileText(before), p.settings)
    ensures Live(after, p.settings)
  {
    KeptAfterRewrite(FileText(before), p.settings);
    SettingsReadBackIff(FileText(before), p.settings);
  }

  lemma QuietStep(before: State, e: Event, after: State)
    requires Step(before, e, after) && !e.reply.Done? && Clean(e.reply)
    ensures after.kernel == before.kernel
    ensures Lookup(after.files, SysctlFile) == Lookup(before.files, SysctlFile)
    ensures Lookup(after.files, NanbbrFile) == Lookup(before.files, NanbbrFile)
  {
  }

  /** Unrelated lines are those of the first state, and file and kernel hold the settings of the last success. */
  ghost predicate Follows(first: State, now: State, last: Option<Event>)
    requires Sound(first)
  {
    && Sound(now) && Kept(FileText(now)) == Kept(FileText(first))
    && match last
       case Some(e) => Live(now, Wanted(e.request, e.machine))
       case None => now.kernel == first.kernel && FileText(now) == FileText(first)
  }

  /**
   Over every run from a sound file: unrelated lines are never lost or changed,
   and file and kernel hold what the last successful request asked for; without
   a success nothing has changed.
   */
  lemma {:induction false} RunFollowsLastDone(hosts: seq<State>, events: seq<Event>)
    requires IsRun(hosts, events) && Sound(hosts[0])
    ensures Follows(hosts[0], hosts[|events|], LastDone(events))
  {
    if events != [] {
      var n := |events| - 1;
      RunFollowsLastDone(hosts[..n + 1], events[..n]);
      FollowsStep(hosts[0], hosts[n], hosts[n + 1], LastDone(events[..n]), events[n]);
    }
  }

  lemma FollowsStep(first: State, before: State, after: State, last: Option<Event>, e: Event)
    requires Step(before, e, after) && Clean(e.reply)
    requires Sound(first) && Follows(first, before, last)
    ensures Follows(first, after, if e.reply.Done? then Some(e) else last)
  {
    if e.reply.Done? {
      CommitIsLive(before, after, PlanOf(e.request, e.machine), e.reply.restart);
    } else {
      QuietStep(before, e, after);
      assert FileText(after) == FileText(before);
    }
  }

  /** The last request that succeeded and gave an aggressiveness. */
  function LastLevelled(events: seq<Event>): Option<Event>
    ensures LastLevelled(events).Some? ==> LastLevelled(events).value.request.aggressiveness.Some?
  {
    if events == [] then None
    else
      var e := events[|events| - 1];
      if e.reply.Done? && e.request.aggressiveness.Some? then Some(e) else LastLevelled(events[..|events| - 1])
  }

  /** The NanBBR parameters of the plan and the NanBBR file hold its level. */
  predicate LevelHeld(h: State, p: Plan)
    requires p.aggressiveness.Some?
  {
    ParametersHold(h.kernel, p.parameters, Level(p)) && Lookup(h.files, NanbbrFile) == Some(NanbbrContent(p.aggressiveness.value))
  }

  /** No NanBBR parameter and not the NanBBR file differ. */
  ghost predicate SameLevels(before: State, after: State) {
    && (forall control :: Parameter(control) in before.kernel <==> Parameter(control) in after.kernel)
    && (forall control :: Parameter(control) in before.kernel && Parameter(control) in after.kernel ==>
          before.kernel[Parameter(control)] == after.kernel[Parameter(control)])
    && Lookup(after.files, NanbbrFile) == Lookup(before.files, NanbbrFile)
  }

  lemma SameLevelsTrans(a: State, b: State, c: State)
    requires SameLevels(a, b) && SameLevels(b, c)
    ensures SameLevels(a, c)
  {
  }

  lemma LevelStays(before: State, after: State, p: Plan)
    requires p.aggressiveness.Some? && LevelHeld(before, p) && SameLevels(before, after)
    ensures LevelHeld(after, p)
  {
    forall i | 0 <= i < |p.parameters| ensures ParameterHolds(after.kernel, p.parameters[i], Level(p)) {
      assert ParameterHolds(before.kernel, p.parameters[i], Level(p));
    }
  }

  /** A success without an aggressiveness writes no parameter. */
  lemma UnlevelledStep(before: State, after: State, p: Plan, restart: bool)
    requires Committed(before.files, after.kernel, after.files, p, restart) && p.aggressiveness.None?
    requires Contained(before.kernel, before.files, after.kernel, after.files, p)
    ensures SameLevels(before, after)
  {
    forall control ensures Parameter(control) !in Locations(p) { }
  }

  lemma LevelStep(before: State, e: Event, after: State)
    requires Step(before, e, after) && Clean(e.reply)
    ensures e.reply.Done? && e.request.aggressiveness.Some? ==> LevelHeld(after, PlanOf(e.request, e.machine))
    ensures !(e.reply.Done? && e.request.aggressiveness.Some?) ==> SameLevels(before, after)
  {
    if !e.reply.Done? {
      QuietStep(before, e, after);
    } else if e.request.aggressiveness.None? {
      UnlevelledStep(before, after, PlanOf(e.request, e.machine), e.reply.restart);
    }
  }

  /**
   Over every run, from any files: the NanBBR parameters and the NanBBR file hold the level of the
   last successful request that gave one; without such a request they have not changed.
   */
  lemma {:induction false} RunFollowsLastLevel(hosts: seq<State>, events: seq<Event>)
    requires IsRun(hosts, events)
    ensures match LastLevelled(events)
            case Some(e) => LevelHeld(hosts[|events|], PlanOf(e.request, e.machine))
            case None => SameLevels(hosts[0], hosts[|events|])
  {
    if events != [] {
      var n := |events| - 1;
      RunFollowsLastLevel(hosts[..n + 1], events[..n]);
      LevelRunStep(hosts[0], hosts[n], hosts[n + 1], LastLevelled(events[..n]), events[n]);
    }
  }

  lemma LevelRunStep(first: State, before: State, after: State, last: Option<Event>, e: Event)
    requires Step(before, e, after) && Clean(e.reply)
    requires last.Some? ==> last.value.request.aggressiveness.Some?
    requires match last case Some(l) => LevelHeld(before, PlanOf(l.request, l.machine)) case None => SameLevels(first, before)
    ensures match if e.reply.Done? && e.request.aggressiveness.Some? then Some(e) else last
            case Some(l) => LevelHeld(after, PlanOf(l.request, l.machine))
            case None => SameLevels(first, after)
  {
    LevelStep(before, e, after);
    if !(e.reply.Done? && e.request.aggressiveness.Some?) {
      match last {
        case Some(l) => LevelStays(before, after, PlanOf(l.request, l.machine));
        case None => SameLevelsTrans(first, before, after);
      }
    }
  }

  /**
   Repeating a successful request leaves the file's bytes and restarts no
   service exactly when the unrelated part of the file is complete.
   */
  lemma RepeatIsQuietIff(first: State, second: State, third: State, p: Plan, restart: bool, again: bool)
    requires Committed(first.files, second.kernel, second.files, p, restart)
    requires Committed(second.files, third.kernel, third.files, p, again)
    ensures !again <==> FileText(third) == FileText(second)
    ensures !again <==> Ends(FileText(first)) || Managed(FileText(first)[|Complete(FileText(first))|..])
  {
    LastRewriteWinsIff(FileText(first), p.settings, p.settings);
    KeptEndsIff(FileText(first));
  }

  lemma NotLocated(p: Plan, key: string)
    requires forall s :: s in p.settings ==> s.key != key
    ensures Sysctl(key) !in Locations(p)
  {
    var ls := SysctlLocations(p.settings);
    forall i | 0 <= i < |ls| ensures ls[i] != Sysctl(key) {
      assert p.settings[i] in p.settings;
    }
  }

  /** A knob that a successful request does not name keeps its live value, although the file no longer lists it. */
  lemma DroppedKnobStaysLive(before: State, after: State, p: Plan, restart: bool, key: string)
    requires Committed(before.files, after.kernel, after.files, p, restart) && Sound(before)
    requires Contained(before.kernel, before.files, after.kernel, after.files, p)
    requires forall s :: s in p.settings ==> s.key != key
    ensures Sysctl(key) in after.kernel <==> Sysctl(key) in before.kernel
    ensures Sysctl(key) in after.kernel ==> after.kernel[Sysctl(key)] == before.kernel[Sysctl(key)]
    ensures Sound(after) && forall s :: s in Settings(FileText(after)) ==> s.key != key
  {
    CommitIsLive(before, after, p, restart);
    NotLocated(p, key);
  }

  predicate Names(p: Plan, key: string) {
    exists i | 0 <= i < |p.settings| :: p.settings[i].key == key
  }

  /**
   After a success that follows a success, the file lists every setting of the earlier one that is
   still live exactly when the later request names every knob of the earlier one.
   */
  lemma StillListedIff(before: State, after: State, earlier: seq<Setting>, p: Plan, restart: bool)
    requires Sound(before) && Live(before, earlier)
    requires Committed(before.files, after.kernel, after.files, p, restart)
    requires Contained(before.kernel, before.files, after.kernel, after.files, p)
    ensures Sound(after)
    ensures (forall s :: s in earlier && SysctlHolds(after.kernel, s) ==> s in Settings(FileText(after))) <==>
            (forall s :: s in earlier ==> Names(p, s.key))
  {
    CommitIsLive(before, after, p, restart);
    forall s | s in earlier && !Names(p, s.key)
      ensures SysctlHolds(after.kernel, s) && s !in Settings(FileText(after))
    {
      var i :| 0 <= i < |earlier| && earlier[i] == s;
      assert SysctlHolds(before.kernel, earlier[i]);
      DroppedKnobStaysLive(before, after, p, restart, s.key);
    }
    forall s | s in earlier && Names(p, s.key) && SysctlHolds(after.kernel, s)
      ensures s in Settings(FileText(after))
    {
      var i :| 0 <= i < |p.settings| && p.settings[i].key == s.key;
      assert SysctlHolds(after.kernel, p.settings[i]);
    }
  }

  /** A knob is set exactly by a candidate that is given and offered. */
  lemma OfferedKnob(cs: seq<Candidate>, options: set<string>, i: nat)
    requires i < |cs| && forall k :: 0 <= k < |cs| && k != i ==> cs[k].knob != cs[i].knob
    ensures Offers(cs[i], options) ==> Knobbed(cs[i].knob, cs[i].value) in Offered(cs, options)
    ensures !cs[i].given ==> forall s :: s in Offered(cs, options) ==> s.key != Knobbed(cs[i].knob, "").key
  {
    OfferedIff(cs, options, Knobbed(cs[i].knob, cs[i].value));
    if !cs[i].given {
      forall s | s in Offered(cs, options) ensures s.key != Knobbed(cs[i].knob, "").key {
        OfferedIff(cs, options, s);
        var k :| 0 <= k < |cs| && Offers(cs[k], options) && s == Knobbed(cs[k].knob, cs[k].value);
        KeyInjective(cs[k].knob, cs[k].value, cs[i].knob, "");
      }
    }
  }

  lemma CloseTimeoutCandidate(r: Request)
    ensures |Candidates(r)| == 7 && Candidates(r)[3] == Candidate(CloseTimeout, Str(r.closeTimeout), r.closeTimeout != 0)
    ensures forall k :: 0 <= k < 7 && k != 3 ==> Candidates(r)[k].knob != CloseTimeout
  {
  }

  /** A mainline kernel's close timeout is set exactly when it is given and offered. */
  lemma CloseTimeoutWanted(r: Request, m: Machine)
    requires !m.legacy
    ensures r.closeTimeout == 0 ==> forall s :: s in Wanted(r, m) ==> s.key != Knobbed(CloseTimeout, "").key
    ensures r.closeTimeout != 0 && Name(CloseTimeout) in m.options ==>
              Knobbed(CloseTimeout, Str(r.closeTimeout)) in Wanted(r, m)
  {
    var cs := Candidates(r);
    CloseTimeoutCandidate(r);
    OfferedKnob(cs, m.options, 3);
    KeyInjective(ChecksumEnabled, r.checksum, CloseTimeout, "");
    ControlKeyDiffers(CloseTimeout, "");
    assert Wanted(r, m) == [Knobbed(ChecksumEnabled, r.checksum)] + Offered(cs, m.options)
                           + [Setting(CONGESTION_CONTROL, r.congestionControl)];
  }

  /** Two successes on a mainline machine, the second with the close timeout left at zero: the first value stays live, unlisted. */
  lemma DroppedTimeout(s0: State, s1: State, s2: State, r1: Request, r2: Request, m: Machine, a: bool, b: bool)
    requires !m.legacy && Name(CloseTimeout) in m.options && r1.closeTimeout != 0 && r2.closeTimeout == 0
    requires Sound(s0) && Step(s0, Event(r1, m, Done(a)), s1) && Step(s1, Event(r2, m, Done(b)), s2)
    ensures var dropped := Knobbed(CloseTimeout, Str(r1.closeTimeout));
            SysctlHolds(s2.kernel, dropped) && Sound(s2) && forall s :: s in Settings(FileText(s2)) ==> s.key != dropped.key
  {
    var p1, p2 := PlanOf(r1, m), PlanOf(r2, m);
    var dropped := Knobbed(CloseTimeout, Str(r1.closeTimeout));
    CloseTimeoutWanted(r1, m);
    CloseTimeoutWanted(r2, m);
    CommitIsLive(s0, s1, p1, a);
    var i :| 0 <= i < |p1.settings| && p1.settings[i] == dropped;
    assert SysctlHolds(s1.kernel, p1.settings[i]);
    DroppedKnobStaysLive(s1, s2, p2, b, dropped.key);
  }

  lemma PlainNames()
    ensures SafeName("fullmesh") && SafeName("default") && SafeName("cubic")
    ensures "cubic" !in NANBBR_MODULES
  {
    assert "cubic"[0] == 'c';
  }

  lemma CloseTimeoutName()
    ensures Name(CloseTimeout) == "close_timeout"
    ensures Knobbed(CloseTimeout, "5") == Setting("net.mptcp.close_timeout", "5")
  {
    assert "net.mptcp." + "close_timeout" == "net.mptcp.close_timeout";
  }

  /** For instance: a close timeout of 5, and then none. */
  lemma DroppedKnobInstance(s0: State, s1: State, s2: State, a: bool, b: bool)
    ensures var r1 := Request("1", "fullmesh", "default", 3, "cubic", 0, 5, 0, 0, 0, None);
            var r2 := r1.(closeTimeout := 0);
            var m := Machine(false, {"close_timeout"}, {}, []);
            && Validate(r1, m).None? && Validate(r2, m).None?
            && (Sound(s0) && Step(s0, Event(r1, m, Done(a)), s1) && Step(s1, Event(r2, m, Done(b)), s2) ==>
                  && Sound(s2) && Sysctl("net.mptcp.close_timeout") in s2.kernel
                  && s2.kernel[Sysctl("net.mptcp.close_timeout")] == "5"
                  && forall s :: s in Settings(FileText(s2)) ==> s.key != "net.mptcp.close_timeout")
  {
    var r1 := Request("1", "fullmesh", "default", 3, "cubic", 0, 5, 0, 0, 0, None);
    var r2 := r1.(closeTimeout := 0);
    var m := Machine(false, {"close_timeout"}, {}, []);
    PlainNames();
    CloseTimeoutName();
    assert Str(5) == "5";
    if Sound(s0) && Step(s0, Event(r1, m, Done(a)), s1) && Step(s1, Event(r2, m, Done(b)), s2) {
      DroppedTimeout(s0, s1, s2, r1, r2, m, a, b);
    }
  }
}
