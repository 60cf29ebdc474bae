/**
 Applying a plan to the kernel and the files, and rolling it back. Every
 operation may fail without effect, fail after taking effect, or leave a value
 of the kernel's own; `faults` counts these misbehaviours.
 */
module MptcpTransaction {
  import opened Lists
  import opened Options
  import opened Text
  import opened MptcpFile
  import opened Mptcp

  /** A place in the kernel the transaction writes: a sysctl or a NanBBR module's parameter. */
  datatype Location = Sysctl(key: string) | Parameter(control: string)

  type Kernel = map<Location, string>

  /** The content of a file: valid UTF-8 given by its text, or other bytes. */
  datatype Bytes = Utf8(text: string) | Malformed(raw: seq<bv8>)

  datatype File = SysctlFile | NanbbrFile | Temp(id: nat)

  type Files = map<File, Bytes>

  /** `Raised` is an exception that leaves the endpoint. */
  datatype Reply = Rejected(reason: Reason) | Failed(rollbackIncomplete: bool) | Raised | Done(restart: bool)

  /** The request was refused, rolled back completely, or done. */
  predicate Clean(reply: Reply) {
    reply != Failed(true) && !reply.Raised?
  }

  // ----- What a plan means

  function Level(p: Plan): string
    requires p.aggressiveness.Some?
  {
    Str(p.aggressiveness.value)
  }

  function SysctlLocations(settings: seq<Setting>): (ls: seq<Location>)
    ensures |ls| == |settings| && forall i :: 0 <= i < |ls| ==> ls[i] == Sysctl(settings[i].key)
  {
    seq(|settings|, i requires 0 <= i < |settings| => Sysctl(settings[i].key))
  }

  function ParameterLocations(parameters: seq<string>): (ls: seq<Location>)
    ensures |ls| == |parameters| && forall i :: 0 <= i < |ls| ==> ls[i] == Parameter(parameters[i])
  {
    seq(|parameters|, i requires 0 <= i < |parameters| => Parameter(parameters[i]))
  }

  /** The locations a plan writes. */
  function Locations(p: Plan): seq<Location> {
    SysctlLocations(p.settings) + ParameterLocations(p.parameters)
  }

  lemma Located(p: Plan)
    ensures forall i :: 0 <= i < |p.settings| ==> Sysctl(p.settings[i].key) in Locations(p)
    ensures forall i :: 0 <= i < |p.parameters| ==> Parameter(p.parameters[i]) in Locations(p)
  {
    forall i | 0 <= i < |p.settings| ensures Sysctl(p.settings[i].key) in Locations(p) {
      assert Locations(p)[i] == Sysctl(p.settings[i].key);
    }
    forall i | 0 <= i < |p.parameters| ensures Parameter(p.parameters[i]) in Locations(p) {
      assert Locations(p)[|p.settings| + i] == Parameter(p.parameters[i]);
    }
  }

  /** Every location of the plan exists. */
  predicate Present(k: Kernel, p: Plan) {
    forall l :: l in Locations(p) ==> l in k
  }

  /** A snapshot holds the value of every location of the plan. */
  predicate Captures(snap: Kernel, k: Kernel, p: Plan) {
    forall l :: l in Locations(p) ==> l in snap && l in k && snap[l] == k[l]
  }

  predicate SysctlHolds(k: Kernel, s: Setting) {
    Sysctl(s.key) in k && k[Sysctl(s.key)] == s.value
  }

  predicate ParameterHolds(k: Kernel, control: string, level: string) {
    Parameter(control) in k && k[Parameter(control)] == level
  }

  predicate SettingsHold(k: Kernel, settings: seq<Setting>) {
    forall i :: 0 <= i < |settings| ==> SysctlHolds(k, settings[i])
  }

  predicate ParametersHold(k: Kernel, parameters: seq<string>, level: string) {
    forall i :: 0 <= i < |parameters| ==> ParameterHolds(k, parameters[i], level)
  }

  /** Every requested setting and parameter holds its value. */
  predicate Achieved(k: Kernel, p: Plan)
    requires WellFormed(p)
  {
    SettingsHold(k, p.settings) && (p.parameters != [] ==> ParametersHold(k, p.parameters, Level(p)))
  }

  function NanbbrContent(n: int): Bytes {
    Utf8("{\n  \"aggressiveness\": " + Str(n) + ",\n  \"version\": 1\n}\n")
  }

  function NewSysctlFile(before: string, p: Plan): Bytes {
    Utf8(NewContent(before, p.settings))
  }

  /** Two kernels agree outside a set of locations. */
  ghost predicate AgreeOutside(a: Kernel, b: Kernel, touched: seq<Location>) {
    forall l :: l !in touched ==> (l in a <==> l in b) && (l in a && l in b ==> a[l] == b[l])
  }

  lemma AgreeThrough(a: Kernel, b: Kernel, c: Kernel, x: seq<Location>, y: seq<Location>, both: seq<Location>)
    requires AgreeOutside(a, b, x) && AgreeOutside(b, c, y)
    requires forall l :: l in x || l in y ==> l in both
    ensures AgreeOutside(a, c, both)
  {
  }

  /** What was achieved stays so while only other locations are written. */
  lemma SettingsStay(after: Kernel, before: Kernel, settings: seq<Setting>, touched: seq<Location>)
    requires AgreeOutside(after, before, touched) && SettingsHold(before, settings)
    requires forall i :: 0 <= i < |settings| ==> Sysctl(settings[i].key) !in touched
    ensures SettingsHold(after, settings)
  {
    forall i | 0 <= i < |settings| ensures SysctlHolds(after, settings[i]) {
      assert SysctlHolds(before, settings[i]);
    }
  }

  lemma ParametersStay(after: Kernel, before: Kernel, parameters: seq<string>, level: string, touched: seq<Location>)
    requires AgreeOutside(after, before, touched) && ParametersHold(before, parameters, level)
    requires forall i :: 0 <= i < |parameters| ==> Parameter(parameters[i]) !in touched
    ensures ParametersHold(after, parameters, level)
  {
    forall i | 0 <= i < |parameters| ensures ParameterHolds(after, parameters[i], level) {
      assert ParameterHolds(before, parameters[i], level);
    }
  }

  lemma SettingAdded(after: Kernel, before: Kernel, settings: seq<Setting>, i: nat)
    requires i < |settings| && DistinctKeys(settings) && SettingsHold(before, settings[..i])
    requires AgreeOutside(after, before, [Sysctl(settings[i].key)]) && SysctlHolds(after, settings[i])
    ensures SettingsHold(after, settings[..i + 1])
  {
    SettingsStay(after, before, settings[..i], [Sysctl(settings[i].key)]);
    assert settings[..i + 1] == settings[..i] + [settings[i]];
  }

  lemma ParameterAdded(after: Kernel, before: Kernel, parameters: seq<string>, level: string, i: nat)
    requires i < |parameters| && Distinct(parameters) && ParametersHold(before, parameters[..i], level)
    requires AgreeOutside(after, before, [Parameter(parameters[i])]) && ParameterHolds(after, parameters[i], level)
    ensures ParametersHold(after, parameters[..i + 1], level)
  {
    ParametersStay(after, before, parameters[..i], level, [Parameter(parameters[i])]);
    assert parameters[..i + 1] == parameters[..i] + [parameters[i]];
  }

  /** The settings in two parts. */
  lemma Parts(p: Plan, n: nat)
    requires n <= |p.settings| && DistinctKeys(p.settings)
    ensures DistinctKeys(p.settings[..n]) && DistinctKeys(p.settings[n..])
    ensures forall l :: l in SysctlLocations(p.settings[..n]) ==> l in Locations(p)
    ensures forall l :: l in SysctlLocations(p.settings[n..]) ==> l in Locations(p)
    ensures forall l :: l in ParameterLocations(p.parameters) ==> l in Locations(p)
    ensures forall i :: 0 <= i < n ==> Sysctl(p.settings[i].key) !in SysctlLocations(p.settings[n..])
  {
    Located(p);
  }

  /** Restoring every logged location undoes writes that went nowhere else. */
  lemma KernelRestored(now: Kernel, before: Kernel, snap: Kernel, p: Plan, logged: seq<Location>)
    requires AgreeOutside(now, before, logged) && Captures(snap, before, p)
    requires forall l :: l in logged ==> l in Locations(p) && l in now && now[l] == snap[l]
    ensures now == before
  {
    forall l
      ensures (l in now <==> l in before) && (l in now && l in before ==> now[l] == before[l])
    {
      if l in logged { assert l in Locations(p); }
    }
  }

  lemma WithinPlan(a: Kernel, b: Kernel, logged: seq<Location>, p: Plan)
    requires AgreeOutside(a, b, logged) && forall l :: l in logged ==> l in Locations(p)
    ensures AgreeOutside(a, b, Locations(p))
  {
  }

  /** The last settings complete the plan. */
  lemma AchievedAtLast(after: Kernel, before: Kernel, p: Plan, n: nat, last: seq<Location>)
    requires WellFormed(p) && n <= |p.settings|
    requires AgreeOutside(after, before, last) && last <= SysctlLocations(p.settings[n..])
    requires SettingsHold(before, p.settings[..n]) && SettingsHold(after, p.settings[n..])
    requires p.parameters != [] ==> ParametersHold(before, p.parameters, Level(p))
    ensures Achieved(after, p)
  {
    Parts(p, n);
    SettingsStay(after, before, p.settings[..n], last);
    assert p.settings == p.settings[..n] + p.settings[n..];
    if p.parameters != [] { ParametersStay(after, before, p.parameters, Level(p), last); }
  }

  /** Files other than `f`: none changed, lost or added. */
  ghost predicate KeptExcept(before: Files, after: Files, f: File) {
    forall g :: g != f ==> (g in before <==> g in after) && (g in before && g in after ==> before[g] == after[g])
  }

  /** Files other than the target `f`: none changed or lost, but a temporary one may be left behind. */
  ghost predicate OthersKept(before: Files, after: Files, f: File) {
    && (forall g :: g != f && g in before ==> g in after && before[g] == after[g])
    && (forall g :: g != f && g in after ==> g in before || g.Temp?)
  }

  /** What the transaction reads before it touches anything. */
  datatype Snapshot = Snapshot(kernel: Kernel, sysctlFile: Bytes, nanbbrFile: Option<Bytes>)

  function Lookup(files: Files, f: File): Option<Bytes> {
    if f in files then Some(files[f]) else None
  }

  /** What a request needs of the machine: every location, and a readable settings file. */
  predicate Ready(k: Kernel, fs: Files, p: Plan) {
    Present(k, p) && SysctlFile in fs && fs[SysctlFile].Utf8?
  }

  /** Kernel and both files as they were. */
  ghost predicate Restored(k0: Kernel, f0: Files, k: Kernel, f: Files) {
    k == k0 && Lookup(f, SysctlFile) == Lookup(f0, SysctlFile) && Lookup(f, NanbbrFile) == Lookup(f0, NanbbrFile)
  }

  function TargetNanbbr(fs: Files, p: Plan): Option<Bytes> {
    if p.aggressiveness.Some? then Some(NanbbrContent(p.aggressiveness.value)) else Lookup(fs, NanbbrFile)
  }

  /** Every requested value holds, both files have their new content, and services restart when the settings file changed. */
  ghost predicate Committed(f0: Files, k: Kernel, f: Files, p: Plan, restart: bool) {
    && WellFormed(p) && Achieved(k, p)
    && SysctlFile in f0 && f0[SysctlFile].Utf8?
    && var target := NewSysctlFile(f0[SysctlFile].text, p);
       && Lookup(f, SysctlFile) == Some(target)
       && (restart <==> target != f0[SysctlFile])
       && Lookup(f, NanbbrFile) == TargetNanbbr(f0, p)
  }

  /** Only the plan's locations may differ; each file has its old or its whole new content; other files are kept. */
  ghost predicate Contained(k0: Kernel, f0: Files, k: Kernel, f: Files, p: Plan) {
    && AgreeOutside(k, k0, Locations(p))
    && (Lookup(f, SysctlFile) == Lookup(f0, SysctlFile)
        || (SysctlFile in f0 && f0[SysctlFile].Utf8? && Lookup(f, SysctlFile) == Some(NewSysctlFile(f0[SysctlFile].text, p))))
    && Lookup(f, NanbbrFile) in [Lookup(f0, NanbbrFile), TargetNanbbr(f0, p)]
    && forall g :: g !in [SysctlFile, NanbbrFile] && g in f0 ==> g in f && f[g] == f0[g]
  }

  /** What a request may leave behind, whatever faults occur. */
  ghost predicate Outcome(k0: Kernel, f0: Files, k: Kernel, f: Files, r: Request, m: Machine, reply: Reply) {
    match reply
    case Rejected(reason) => Validate(r, m) == Some(reason) && k == k0 && f == f0
    case Failed(incomplete) =>
      // Failure atomicity: an error without "rollback incomplete" leaves everything as it was.
      && Validate(r, m).None?
      && Contained(k0, f0, k, f, PlanOf(r, m))
      && (!incomplete ==> Restored(k0, f0, k, f))
    case Raised => Validate(r, m).None? && Contained(k0, f0, k, f, PlanOf(r, m))
    case Done(restart) =>
      // Success means everything requested is in place, and nothing else changed.
      && Validate(r, m).None?
      && Ready(k0, f0, PlanOf(r, m))
      && Contained(k0, f0, k, f, PlanOf(r, m))
      && Committed(f0, k, f, PlanOf(r, m), restart)
  }

  class Host {
    var kernel: Kernel
    var files: Files
    ghost var faults: nat

    constructor (kernel: Kernel, files: Files)
      ensures this.kernel == kernel && this.files == files && faults == 0
    {
      this.kernel, this.files, faults := kernel, files, 0;
    }

    // ----- Single operations

    /** Reading a location gives its value or an error. */
    method ReadKernel(l: Location) returns (r: Option<string>)
      modifies this`faults
      ensures faults >= old(faults)
      ensures r.Some? ==> l in kernel && r.value == kernel[l]
      ensures faults == old(faults) && l in kernel ==> r.Some?
    {
      if * {
        faults := faults + 1;
        return None;
      }
      r := if l in kernel then Some(kernel[l]) else None;
    }

    /** Writing a location: on a fault it holds any value, whether or not an error is reported. */
    method WriteKernel(l: Location, value: string) returns (ok: bool)
      modifies this`kernel, this`faults
      ensures faults >= old(faults)
      ensures kernel.Keys == old(kernel.Keys)
      ensures AgreeOutside(kernel, old(kernel), [l])
      ensures faults == old(faults) && l in kernel ==> ok && kernel[l] == value
    {
      if l !in kernel { return false; }
      var stored, reported := value, true;
      if * {
        faults := faults + 1;
        stored := *;
        reported := *;
      }
      kernel := kernel[l := stored];
      ok := reported;
    }

    /** Writing a location and reading it back: success means it holds the value. */
    method Set(l: Location, value: string) returns (ok: bool)
      modifies this`kernel, this`faults
      ensures faults >= old(faults)
      ensures kernel.Keys == old(kernel.Keys)
      ensures AgreeOutside(kernel, old(kernel), [l])
      ensures ok ==> l in kernel && kernel[l] == value
      ensures faults == old(faults) && l in kernel ==> ok
    {
      ok := WriteKernel(l, value);
      if ok {
        var readback := ReadKernel(l);
        ok := readback == Some(value);
      }
    }

    /**
     Writing a file through a temporary one: the target holds its old content or
     all of the new one, whatever fails; an error can follow the replacement.
     */
    method AtomicWrite(f: File, content: Bytes) returns (ok: bool)
      requires !f.Temp?
      modifies this`files, this`faults
      ensures faults >= old(faults)
      ensures OthersKept(old(files), files, f)
      ensures Lookup(files, f) == Some(content) || Lookup(files, f) == Lookup(old(files), f)
      ensures ok ==> Lookup(files, f) == Some(content)
      ensures faults == old(faults) ==> ok && files == old(files)[f := content]
    {
      var id: nat := *;
      var tmp := Temp(id);
      if * { faults := faults + 1; return false; }        // no directory, no temporary file
      if tmp in files { faults := faults + 1; return false; }
      files := files[tmp := Malformed([])];
      ok := WriteTemp(tmp, content);
      if ok { ok := Replace(tmp, f); }
      if !ok { Discard(tmp); }
    }

    /** Renaming the temporary file over the target; the directory may then fail to be synced. */
    method Replace(tmp: File, f: File) returns (ok: bool)
      requires tmp in files && tmp != f
      modifies this`files, this`faults
      ensures faults >= old(faults)
      ensures files == (old(files) - {tmp})[f := old(files)[tmp]]
      ensures faults == old(faults) ==> ok
    {
      files := (files - {tmp})[f := files[tmp]];
      ok := true;
      if * {
        faults := faults + 1;
        ok := false;
      }
    }

    /** Removing the temporary file, which may be gone or stay behind. */
    method Discard(tmp: File)
      modifies this`files, this`faults
      ensures faults >= old(faults)
      ensures KeptExcept(old(files), files, tmp) && (tmp in files ==> tmp in old(files))
    {
      if * {
        files := files - {tmp};
      } else {
        faults := faults + 1;
      }
    }

    /** Filling the temporary file: on error it holds anything. */
    method WriteTemp(tmp: File, content: Bytes) returns (ok: bool)
      requires tmp in files
      modifies this`files, this`faults
      ensures faults >= old(faults)
      ensures tmp in files && KeptExcept(old(files), files, tmp)
      ensures ok ==> files[tmp] == content
      ensures faults == old(faults) ==> ok
    {
      var written := content;
      ok := true;
      if * {
        faults := faults + 1;
        written := *;
        ok := false;
      }
      files := files[tmp := written];
    }

    /** Removing a file that may be absent. */
    method Remove(f: File) returns (ok: bool)
      modifies this`files, this`faults
      ensures faults >= old(faults)
      ensures KeptExcept(old(files), files, f)
      ensures files == old(files) || files == old(files) - {f}
      ensures ok ==> f !in files
      ensures faults == old(faults) ==> ok
    {
      ok := true;
      if * {
        faults := faults + 1;
        ok := false;
        if * { return; }
      }
      files := files - {f};
    }

    /** Reading a file: absent, or an error, or its content. */
    method ReadFile(f: File) returns (failed: bool, content: Option<Bytes>)
      modifies this`faults
      ensures faults >= old(faults)
      ensures !failed ==> content == Lookup(files, f)
      ensures faults == old(faults) ==> !failed
    {
      if * {
        faults := faults + 1;
        return true, None;
      }
      return false, Lookup(files, f);
    }

    // ----- Taking the snapshot

    method TakeSnapshot(p: Plan) returns (snap: Option<Snapshot>)
      modifies this`faults
      ensures faults >= old(faults)
      ensures snap.Some? ==>
                && Lookup(files, SysctlFile) == Some(snap.value.sysctlFile)
                && Lookup(files, NanbbrFile) == snap.value.nanbbrFile
                && Captures(snap.value.kernel, kernel, p)
      ensures faults == old(faults) && Present(kernel, p) && SysctlFile in files ==> snap.Some?
    {
      var failed, sysctlFile := ReadFile(SysctlFile);
      if failed || sysctlFile.None? { return None; }
      var nanbbrFile;
      failed, nanbbrFile := ReadFile(NanbbrFile);
      if failed { return None; }
      var sysctls := ReadAll(SysctlLocations(p.settings), map[]);
      if sysctls.None? { return None; }
      var values := ReadAll(ParameterLocations(p.parameters), sysctls.value);
      if values.None? { return None; }
      snap := Some(Snapshot(values.value, sysctlFile.value, nanbbrFile));
    }

    /** Reads locations in order, stopping at the first error. */
    method ReadAll(locations: seq<Location>, start: Kernel) returns (values: Option<Kernel>)
      requires forall l :: l in start ==> l in kernel && start[l] == kernel[l]
      modifies this`faults
      ensures faults >= old(faults)
      ensures values.Some? ==> forall l :: l in start || l in locations ==> l in values.value
      ensures values.Some? ==> forall l :: l in values.value ==> l in kernel && values.value[l] == kernel[l]
      ensures faults == old(faults) && (forall l :: l in locations ==> l in kernel) ==> values.Some?
    {
      var read := start;
      for i := 0 to |locations|
        invariant faults >= old(faults)
        invariant forall l :: l in read ==> l in kernel && read[l] == kernel[l]
        invariant forall l :: l in start || l in locations[..i] ==> l in read
      {
        var value := ReadKernel(locations[i]);
        if value.None? { return None; }
        read := read[locations[i] := value.value];
      }
      assert locations[..|locations|] == locations;
      values := Some(read);
    }

    // ----- Applying

    /** Logs each location before touching it: what is not logged still holds its old value. */
    method ApplySettings(settings: seq<Setting>) returns (ok: bool, logged: seq<Location>)
      requires DistinctKeys(settings)
      modifies this`kernel, this`faults
      ensures faults >= old(faults)
      ensures kernel.Keys == old(kernel.Keys)
      ensures AgreeOutside(kernel, old(kernel), logged)
      ensures logged <= SysctlLocations(settings)
      ensures ok ==> SettingsHold(kernel, settings)
      ensures faults == old(faults) && (forall l :: l in SysctlLocations(settings) ==> l in old(kernel)) ==> ok
    {
      ok, logged := true, [];
      for i := 0 to |settings|
        invariant faults >= old(faults)
        invariant kernel.Keys == old(kernel.Keys)
        invariant AgreeOutside(kernel, old(kernel), logged)
        invariant logged == SysctlLocations(settings)[..i]
        invariant SettingsHold(kernel, settings[..i])
      {
        var l := Sysctl(settings[i].key);
        assert l == SysctlLocations(settings)[i];
        logged := logged + [l];
        label Logged:
        ok := Set(l, settings[i].value);
        AgreeThrough(kernel, old@Logged(kernel), old(kernel), [l], logged[..i], logged);
        if !ok { return; }
        SettingAdded(kernel, old@Logged(kernel), settings, i);
      }
    }

    method ApplyParameters(parameters: seq<string>, level: string) returns (ok: bool, logged: seq<Location>)
      requires Distinct(parameters)
      modifies this`kernel, this`faults
      ensures faults >= old(faults)
      ensures kernel.Keys == old(kernel.Keys)
      ensures AgreeOutside(kernel, old(kernel), logged)
      ensures logged <= ParameterLocations(parameters)
      ensures ok ==> ParametersHold(kernel, parameters, level)
      ensures faults == old(faults) && (forall l :: l in ParameterLocations(parameters) ==> l in old(kernel)) ==> ok
    {
      ok, logged := true, [];
      for i := 0 to |parameters|
        invariant faults >= old(faults)
        invariant kernel.Keys == old(kernel.Keys)
        invariant AgreeOutside(kernel, old(kernel), logged)
        invariant logged == ParameterLocations(parameters)[..i]
        invariant ParametersHold(kernel, parameters[..i], level)
      {
        var l := Parameter(parameters[i]);
        assert l == ParameterLocations(parameters)[i];
        logged := logged + [l];
        label Logged:
        ok := Set(l, level);
        AgreeThrough(kernel, old@Logged(kernel), old(kernel), [l], logged[..i], logged);
        if !ok { return; }
        ParameterAdded(kernel, old@Logged(kernel), parameters, level, i);
      }
    }

    /** Applies the first n settings, then the parameters. */
    method ApplyFront(p: Plan, n: nat) returns (ok: bool, sysctls: seq<Location>, parameters: seq<Location>)
      requires WellFormed(p) && n <= |p.settings|
      modifies this`kernel, this`faults
      ensures faults >= old(faults)
      ensures kernel.Keys == old(kernel.Keys)
      ensures AgreeOutside(kernel, old(kernel), sysctls + parameters)
      ensures sysctls <= SysctlLocations(p.settings[..n]) && parameters <= ParameterLocations(p.parameters)
      ensures ok ==> SettingsHold(kernel, p.settings[..n])
      ensures ok && p.parameters != [] ==> ParametersHold(kernel, p.parameters, Level(p))
      ensures faults == old(faults) && Present(old(kernel), p) ==> ok
    {
      Parts(p, n);
      parameters := [];
      ok, sysctls := ApplySettings(p.settings[..n]);
      if !ok { return; }
      label FrontDone:
      if p.aggressiveness.Some? {
        ok, parameters := ApplyParameters(p.parameters, Level(p));
        AgreeThrough(kernel, old@FrontDone(kernel), old(kernel), parameters, sysctls, sysctls + parameters);
        if !ok { return; }
        SettingsStay(kernel, old@FrontDone(kernel), p.settings[..n], parameters);
      }
    }

    /** Applies the settings but the last, then the parameters, then the last setting. */
    method ApplyKernel(p: Plan) returns (ok: bool, sysctls: seq<Location>, parameters: seq<Location>)
      requires WellFormed(p)
      modifies this`kernel, this`faults
      ensures faults >= old(faults)
      ensures kernel.Keys == old(kernel.Keys)
      ensures AgreeOutside(kernel, old(kernel), sysctls + parameters)
      ensures forall l :: l in sysctls + parameters ==> l in Locations(p)
      ensures (forall l :: l in sysctls ==> l.Sysctl?) && forall l :: l in parameters ==> l.Parameter?
      ensures ok ==> Achieved(kernel, p)
      ensures faults == old(faults) && Present(old(kernel), p) ==> ok
    {
      var n := |p.settings| - 1;
      Parts(p, n);
      ok, sysctls, parameters := ApplyFront(p, n);
      if !ok { return; }
      label FrontDone:
      var last;
      ok, last := ApplySettings(p.settings[n..]);
      AgreeThrough(kernel, old@FrontDone(kernel), old(kernel), last, sysctls + parameters, sysctls + last + parameters);
      sysctls := sysctls + last;
      if ok { AchievedAtLast(kernel, old@FrontDone(kernel), p, n, last); }
    }

    /** Rewrites the files whose content changes, logging each before touching it. */
    method ApplyFiles(p: Plan, snap: Snapshot, sysctlFile: Bytes) returns (ok: bool, restored: seq<File>)
      requires Lookup(files, SysctlFile) == Some(snap.sysctlFile) && Lookup(files, NanbbrFile) == snap.nanbbrFile
      modifies this`files, this`faults
      ensures faults >= old(faults)
      ensures forall f :: f in restored ==> f in [SysctlFile, NanbbrFile]
      ensures forall f :: f !in restored && f in old(files) ==> f in files && files[f] == old(files)[f]
      ensures forall f :: f !in restored && f in files ==> f in old(files) || f.Temp?
      ensures Lookup(files, SysctlFile) in [Some(snap.sysctlFile), Some(sysctlFile)]
      ensures Lookup(files, NanbbrFile) == snap.nanbbrFile
              || (p.aggressiveness.Some? && Lookup(files, NanbbrFile) == Some(NanbbrContent(p.aggressiveness.value)))
      ensures ok ==> Lookup(files, SysctlFile) == Some(sysctlFile)
      ensures ok ==> Lookup(files, NanbbrFile) ==
                     if p.aggressiveness.Some? then Some(NanbbrContent(p.aggressiveness.value)) else snap.nanbbrFile
      ensures faults == old(faults) ==> ok
    {
      ok, restored := true, [];
      if p.aggressiveness.Some? {
        var content := NanbbrContent(p.aggressiveness.value);
        if snap.nanbbrFile != Some(content) {
          restored := restored + [NanbbrFile];
          ok := AtomicWrite(NanbbrFile, content);
          if !ok { return; }
        }
      }
      if snap.sysctlFile != sysctlFile {
        restored := restored + [SysctlFile];
        ok := AtomicWrite(SysctlFile, sysctlFile);
      }
    }

    // ----- Rolling back

    /**
     Writing the snapshot value of a location back and reading it again. A value that cannot be
     decoded when it is read raises an exception that the rollback does not catch.
     */
    method Restore(l: Location, value: string) returns (ok: bool, raised: bool)
      modifies this`kernel, this`faults
      ensures faults >= old(faults)
      ensures kernel.Keys == old(kernel.Keys)
      ensures AgreeOutside(kernel, old(kernel), [l])
      ensures ok ==> l in kernel && kernel[l] == value
      ensures faults == old(faults) && l in kernel ==> ok
      ensures raised ==> faults > old(faults)
    {
      raised := false;
      ok := WriteKernel(l, value);
      if ok {
        if * {
          faults := faults + 1;
          return false, true;
        }
        var readback := ReadKernel(l);
        ok := readback == Some(value);
      }
    }

    /**
     Restores logged locations, the latest first, and records those with an error. An error on one
     does not stop the rest, except an exception of the read-back.
     */
    method RollbackKernel(logged: seq<Location>, snap: Kernel) returns (raised: bool, errors: seq<Location>)
      requires forall l :: l in logged ==> l in snap
      modifies this`kernel, this`faults
      ensures faults >= old(faults)
      ensures kernel.Keys == old(kernel.Keys)
      ensures AgreeOutside(kernel, old(kernel), logged)
      ensures !raised ==> forall l :: l in logged && l !in errors ==> l in kernel && kernel[l] == snap[l]
      ensures raised ==> faults > old(faults)
      ensures faults == old(faults) && (forall l :: l in logged ==> l in old(kernel)) ==> errors == []
    {
      raised, errors := false, [];
      for i := |logged| downto 0
        invariant faults >= old(faults)
        invariant kernel.Keys == old(kernel.Keys)
        invariant AgreeOutside(kernel, old(kernel), logged)
        invariant forall j :: i <= j < |logged| && logged[j] !in errors ==>
                    logged[j] in kernel && kernel[logged[j]] == snap[logged[j]]
        invariant faults == old(faults) && (forall l :: l in logged ==> l in old(kernel)) ==> errors == []
      {
        var ok;
        ok, raised := Restore(logged[i], snap[logged[i]]);
        if raised { return; }
        if !ok { errors := errors + [logged[i]]; }
      }
    }

    /** Restores logged files: the old content, or absence. */
    method RollbackFiles(restored: seq<File>, snap: Snapshot) returns (incomplete: bool)
      requires Lookup(files, SysctlFile).Some?
      modifies this`files, this`faults
      ensures faults >= old(faults)
      ensures forall f :: f !in [SysctlFile, NanbbrFile] && f in old(files) ==> f in files && files[f] == old(files)[f]
      ensures Lookup(files, SysctlFile) in [Lookup(old(files), SysctlFile), Some(snap.sysctlFile)]
      ensures Lookup(files, NanbbrFile) in [Lookup(old(files), NanbbrFile), snap.nanbbrFile]
      ensures SysctlFile !in restored ==> Lookup(files, SysctlFile) == Lookup(old(files), SysctlFile)
      ensures NanbbrFile !in restored ==> Lookup(files, NanbbrFile) == Lookup(old(files), NanbbrFile)
      ensures !incomplete && SysctlFile in restored ==> Lookup(files, SysctlFile) == Some(snap.sysctlFile)
      ensures !incomplete && NanbbrFile in restored ==> Lookup(files, NanbbrFile) == snap.nanbbrFile
      ensures faults == old(faults) ==> !incomplete
    {
      incomplete := false;
      if SysctlFile in restored {
        var ok := AtomicWrite(SysctlFile, snap.sysctlFile);
        if !ok { incomplete := true; }
      }
      if NanbbrFile in restored {
        var ok;
        match snap.nanbbrFile {
          case None => ok := Remove(NanbbrFile);
          case Some(content) => ok := AtomicWrite(NanbbrFile, content);
        }
        if !ok { incomplete := true; }
      }
    }

    method Rollback(snap: Snapshot, sysctls: seq<Location>, parameters: seq<Location>, restored: seq<File>)
      returns (raised: bool, incomplete: bool)
      requires forall l :: l in sysctls + parameters ==> l in snap.kernel
      requires (forall l :: l in sysctls ==> l.Sysctl?) && forall l :: l in parameters ==> l.Parameter?
      requires Lookup(files, SysctlFile).Some?
      modifies this`kernel, this`files, this`faults
      ensures faults >= old(faults)
      ensures AgreeOutside(kernel, old(kernel), sysctls + parameters)
      ensures raised ==> faults > old(faults)
      ensures !raised && !incomplete ==> forall l :: l in sysctls + parameters ==> l in kernel && kernel[l] == snap.kernel[l]
      ensures forall f :: f !in [SysctlFile, NanbbrFile] && f in old(files) ==> f in files && files[f] == old(files)[f]
      ensures Lookup(files, SysctlFile) in [Lookup(old(files), SysctlFile), Some(snap.sysctlFile)]
      ensures Lookup(files, NanbbrFile) in [Lookup(old(files), NanbbrFile), snap.nanbbrFile]
      ensures SysctlFile !in restored ==> Lookup(files, SysctlFile) == Lookup(old(files), SysctlFile)
      ensures NanbbrFile !in restored ==> Lookup(files, NanbbrFile) == Lookup(old(files), NanbbrFile)
      ensures !raised && !incomplete && SysctlFile in restored ==> Lookup(files, SysctlFile) == Some(snap.sysctlFile)
      ensures !raised && !incomplete && NanbbrFile in restored ==> Lookup(files, NanbbrFile) == snap.nanbbrFile
      ensures faults == old(faults) && (forall l :: l in sysctls + parameters ==> l in old(kernel)) ==> !incomplete
    {
      incomplete := true;
      var sysctlErrors, parameterErrors;
      raised, sysctlErrors := RollbackKernel(sysctls, snap.kernel);
      if raised { return; }
      label SysctlsDone:
      raised, parameterErrors := RollbackKernel(parameters, snap.kernel);
      AgreeThrough(kernel, old@SysctlsDone(kernel), old(kernel), parameters, sysctls, sysctls + parameters);
      if raised { return; }
      assert forall l :: l in sysctls ==> l !in parameters;
      var filesLeft := RollbackFiles(restored, snap);
      incomplete := sysctlErrors != [] || parameterErrors != [] || filesLeft;
    }

    // ----- The whole request

    /** Applies a plan whose snapshot has been taken, and rolls back on any error. */
    method Attempt(p: Plan, snap: Snapshot) returns (reply: Reply, ghost rollbackFaults: nat)
      requires WellFormed(p) && Captures(snap.kernel, kernel, p) && snap.sysctlFile.Utf8?
      requires Lookup(files, SysctlFile) == Some(snap.sysctlFile) && Lookup(files, NanbbrFile) == snap.nanbbrFile
      modifies this`kernel, this`files, this`faults
      ensures faults >= old(faults)
      ensures !reply.Rejected?
      ensures reply == Failed(false) ==> Restored(old(kernel), old(files), kernel, files)
      ensures !Clean(reply) ==> rollbackFaults > 0
      ensures reply.Done? ==> Committed(old(files), kernel, files, p, reply.restart)
      ensures Contained(old(kernel), old(files), kernel, files, p)
      ensures faults == old(faults) ==> reply.Done?
    {
      var sysctlFile := NewSysctlFile(snap.sysctlFile.text, p);
      var ok, sysctls, parameters := ApplyKernel(p);
      var restored: seq<File> := [];
      WithinPlan(kernel, old(kernel), sysctls + parameters, p);
      if ok {
        ok, restored := ApplyFiles(p, snap, sysctlFile);
      }
      if ok { return Done(snap.sysctlFile != sysctlFile), 0; }
      label Failing:
      ghost var before := faults;
      var raised, incomplete := Rollback(snap, sysctls, parameters, restored);
      rollbackFaults := faults - before;
      AgreeThrough(kernel, old@Failing(kernel), old(kernel), sysctls + parameters, sysctls + parameters, sysctls + parameters);
      WithinPlan(kernel, old(kernel), sysctls + parameters, p);
      if raised { return Raised, rollbackFaults; }
      if !incomplete {
        KernelRestored(kernel, old(kernel), snap.kernel, p, sysctls + parameters);
      }
      reply := Failed(incomplete);
    }

    /** Takes the snapshot and attempts the plan; nothing is touched when the snapshot fails. */
    method Commit(p: Plan) returns (reply: Reply, ghost rollbackFaults: nat)
      requires WellFormed(p)
      modifies this`kernel, this`files, this`faults
      ensures !reply.Rejected?
      ensures reply == Failed(false) ==> Restored(old(kernel), old(files), kernel, files)
      ensures !Clean(reply) ==> rollbackFaults > 0
      ensures reply.Done? ==> Committed(old(files), kernel, files, p, reply.restart) && Ready(old(kernel), old(files), p)
      ensures Contained(old(kernel), old(files), kernel, files, p)
      ensures faults == old(faults) && Ready(old(kernel), old(files), p) ==> reply.Done?
    {
      rollbackFaults := 0;
      var snap := TakeSnapshot(p);
      if snap.None? || snap.value.sysctlFile.Malformed? { return Failed(false), 0; }
      reply, rollbackFaults := Attempt(p, snap.value);
    }

    /**
     One request, under any faults. Only a fault during the rollback itself can
     leave it incomplete, and without faults an accepted request succeeds on
     every machine that has all it names.
     */
    method Configure(r: Request, m: Machine) returns (reply: Reply, ghost rollbackFaults: nat)
      modifies this`kernel, this`files, this`faults
      ensures Outcome(old(kernel), old(files), kernel, files, r, m, reply)
      ensures Validate(r, m).Some? <==> reply.Rejected?
      ensures !Clean(reply) ==> rollbackFaults > 0
      ensures faults == old(faults) && Validate(r, m).None? && Ready(old(kernel), old(files), PlanOf(r, m)) ==> reply.Done?
    {
      var reason := Validate(r, m);
      if reason.Some? { return Rejected(reason.value), 0; }
      PlanWellFormed(r, m);
      var settings := BuildSettings(r, m);
      reply, rollbackFaults := Commit(Plan(settings, if r.aggressiveness.Some? then Supported(m) else [], r.aggressiveness));
    }
  }
}
