/**
 What a successful `/mptcp` request applies, read off the request by the names
 of the sysctls, of the NanBBR parameters and of the NanBBR file's member.
 */
module MptcpApplied {
  import opened Lists
  import opened Options
  import opened Text
  import opened MptcpFile
  import opened Mptcp
  import opened MptcpTransaction
  import opened MptcpRuns

  // ----- The settings by name

  /** One option of a mainline kernel: set when it is given and the kernel offers it. */
  predicate Option(s: Setting, key: string, value: string, given: bool, offered: bool) {
    given && offered && s == Setting(key, value)
  }

  /** The settings a request asks of a mainline kernel that offers these options. */
  predicate MainlineLists(r: Request, options: set<string>, s: Setting) {
    || s == Setting("net.mptcp.checksum_enabled", r.checksum)
    || Option(s, "net.mptcp.scheduler", r.scheduler, r.scheduler != "", "scheduler" in options)
    || Option(s, "net.mptcp.path_manager", r.pathManager, r.pathManager != "", "path_manager" in options)
    || Option(s, "net.mptcp.syn_retries", Str(r.synRetries), r.synRetries != 0, "syn_retries" in options)
    || Option(s, "net.mptcp.close_timeout", Str(r.closeTimeout), r.closeTimeout != 0, "close_timeout" in options)
    || Option(s, "net.mptcp.pm_type", Str(r.pmType), r.pmType != 0, "pm_type" in options)
    || Option(s, "net.mptcp.stale_loss_cnt", Str(r.staleLossCnt), r.staleLossCnt != 0, "stale_loss_cnt" in options)
    || Option(s, "net.mptcp.syn_retrans_before_tcp_fallback", Str(r.synRetransBeforeTcpFallback),
              r.synRetransBeforeTcpFallback != 0, "syn_retrans_before_tcp_fallback" in options)
    || s == Setting("net.ipv4.tcp_congestion_control", r.congestionControl)
  }

  /** And of a kernel with the legacy interface. */
  predicate LegacyLists(r: Request, s: Setting) {
    || s == Setting("net.mptcp.mptcp_checksum", r.checksum)
    || s == Setting("net.mptcp.mptcp_path_manager", r.pathManager)
    || s == Setting("net.mptcp.mptcp_scheduler", r.scheduler)
    || s == Setting("net.mptcp.mptcp_syn_retries", Str(r.synRetries))
    || s == Setting("net.mptcp.mptcp_version", Str(r.version))
    || s == Setting("net.ipv4.tcp_congestion_control", r.congestionControl)
  }

  predicate Asks(r: Request, m: Machine, s: Setting) {
    if m.legacy then LegacyLists(r, s) else MainlineLists(r, m.options, s)
  }

  /** A candidate is listed under its knob's name. */
  predicate Listed(s: Setting, k: Knob, value: string, given: bool, options: set<string>) {
    given && Name(k) in options && s == Knobbed(k, value)
  }

  lemma OfferedSeven(r: Request, options: set<string>, s: Setting)
    ensures s in Offered(Candidates(r), options) <==>
            || Listed(s, Scheduler, r.scheduler, r.scheduler != "", options)
            || Listed(s, PathManager, r.pathManager, r.pathManager != "", options)
            || Listed(s, SynRetries, Str(r.synRetries), r.synRetries != 0, options)
            || Listed(s, CloseTimeout, Str(r.closeTimeout), r.closeTimeout != 0, options)
            || Listed(s, PmType, Str(r.pmType), r.pmType != 0, options)
            || Listed(s, StaleLossCnt, Str(r.staleLossCnt), r.staleLossCnt != 0, options)
            || Listed(s, SynRetransFallback, Str(r.synRetransBeforeTcpFallback), r.synRetransBeforeTcpFallback != 0, options)
  {
    OfferedIff(Candidates(r), options, s);
    CandidatesAre(r);
    EachListed(Candidates(r), options, s);
  }

  lemma CandidatesAre(r: Request)
    ensures Candidates(r) == [
              Candidate(Scheduler, r.scheduler, r.scheduler != ""),
              Candidate(PathManager, r.pathManager, r.pathManager != ""),
              Candidate(SynRetries, Str(r.synRetries), r.synRetries != 0),
              Candidate(CloseTimeout, Str(r.closeTimeout), r.closeTimeout != 0),
              Candidate(PmType, Str(r.pmType), r.pmType != 0),
              Candidate(StaleLossCnt, Str(r.staleLossCnt), r.staleLossCnt != 0),
              Candidate(SynRetransFallback, Str(r.synRetransBeforeTcpFallback), r.synRetransBeforeTcpFallback != 0)]
  {
  }

  predicate ListedAt(s: Setting, c: Candidate, options: set<string>) {
    Listed(s, c.knob, c.value, c.given, options)
  }

  lemma EachListed(cs: seq<Candidate>, options: set<string>, s: Setting)
    requires |cs| == 7
    ensures (exists i :: 0 <= i < |cs| && Offers(cs[i], options) && s == Knobbed(cs[i].knob, cs[i].value)) <==>
            || ListedAt(s, cs[0], options) || ListedAt(s, cs[1], options) || ListedAt(s, cs[2], options)
            || ListedAt(s, cs[3], options) || ListedAt(s, cs[4], options) || ListedAt(s, cs[5], options)
            || ListedAt(s, cs[6], options)
  {
    assert forall i :: 0 <= i < |cs| ==>
             (Offers(cs[i], options) && s == Knobbed(cs[i].knob, cs[i].value) <==> ListedAt(s, cs[i], options));
  }

  lemma KeyIs(k: Knob, name: string, key: string, value: string)
    requires Name(k) == name && key == "net.mptcp." + name
    ensures Knobbed(k, value) == Setting(key, value)
  {
  }

  lemma BasicKeys(value: string)
    ensures Name(Scheduler) == "scheduler" && Knobbed(Scheduler, value) == Setting("net.mptcp.scheduler", value)
    ensures Name(PathManager) == "path_manager" && Knobbed(PathManager, value) == Setting("net.mptcp.path_manager", value)
    ensures Name(SynRetries) == "syn_retries" && Knobbed(SynRetries, value) == Setting("net.mptcp.syn_retries", value)
  {
    KeyIs(Scheduler, "scheduler", "net.mptcp.scheduler", value);
    KeyIs(PathManager, "path_manager", "net.mptcp.path_manager", value);
    KeyIs(SynRetries, "syn_retries", "net.mptcp.syn_retries", value);
  }

  lemma TuningKeys(value: string)
    ensures Name(CloseTimeout) == "close_timeout" && Knobbed(CloseTimeout, value) == Setting("net.mptcp.close_timeout", value)
    ensures Name(PmType) == "pm_type" && Knobbed(PmType, value) == Setting("net.mptcp.pm_type", value)
    ensures Name(StaleLossCnt) == "stale_loss_cnt" && Knobbed(StaleLossCnt, value) == Setting("net.mptcp.stale_loss_cnt", value)
  {
    KeyIs(CloseTimeout, "close_timeout", "net.mptcp.close_timeout", value);
    KeyIs(PmType, "pm_type", "net.mptcp.pm_type", value);
    KeyIs(StaleLossCnt, "stale_loss_cnt", "net.mptcp.stale_loss_cnt", value);
  }

  lemma ChecksumKey(value: string)
    ensures Knobbed(ChecksumEnabled, value) == Setting("net.mptcp.checksum_enabled", value)
  {
    KeyIs(ChecksumEnabled, "checksum_enabled", "net.mptcp.checksum_enabled", value);
  }

  lemma FallbackName()
    ensures Name(SynRetransFallback) == "syn_retrans_before_tcp_fallback"
  {
  }

  lemma FallbackText()
    ensures "net.mptcp." + "syn_retrans_before_tcp_fallback" == "net.mptcp.syn_retrans_before_tcp_fallback"
  {
  }

  lemma FallbackKey(value: string)
    ensures Knobbed(SynRetransFallback, value) == Setting("net.mptcp.syn_retrans_before_tcp_fallback", value)
  {
    FallbackName();
    FallbackText();
  }

  lemma LegacyKeyIs(k: Knob, stem: string, key: string, value: string)
    requires IsLegacy(k) && LegacyStem(k) == stem && key == "net.mptcp.mptcp_" + stem
    ensures Knobbed(k, value) == Setting(key, value)
  {
    var name := "mptcp_" + stem;
    assert "net.mptcp.mptcp_" == "net.mptcp." + "mptcp_";
    assert "net.mptcp." + name == "net.mptcp.mptcp_" + stem;
  }

  lemma LegacyChecksumKey(value: string)
    ensures Knobbed(MptcpChecksum, value) == Setting("net.mptcp.mptcp_checksum", value)
  {
    LegacyKeyIs(MptcpChecksum, "checksum", "net.mptcp.mptcp_checksum", value);
  }

  lemma LegacyPathManagerKey(value: string)
    ensures Knobbed(MptcpPathManager, value) == Setting("net.mptcp.mptcp_path_manager", value)
  {
    LegacyKeyIs(MptcpPathManager, "path_manager", "net.mptcp.mptcp_path_manager", value);
  }

  lemma LegacySchedulerKey(value: string)
    ensures Knobbed(MptcpScheduler, value) == Setting("net.mptcp.mptcp_scheduler", value)
  {
    LegacyKeyIs(MptcpScheduler, "scheduler", "net.mptcp.mptcp_scheduler", value);
  }

  lemma LegacySynRetriesKey(value: string)
    ensures Knobbed(MptcpSynRetries, value) == Setting("net.mptcp.mptcp_syn_retries", value)
  {
    LegacyKeyIs(MptcpSynRetries, "syn_retries", "net.mptcp.mptcp_syn_retries", value);
  }

  lemma LegacyVersionKey(value: string)
    ensures Knobbed(MptcpVersion, value) == Setting("net.mptcp.mptcp_version", value)
  {
    LegacyKeyIs(MptcpVersion, "version", "net.mptcp.mptcp_version", value);
  }

  lemma MainlineIff(r: Request, m: Machine, s: Setting)
    requires !m.legacy
    ensures s in Wanted(r, m) <==> MainlineLists(r, m.options, s)
  {
    OfferedSeven(r, m.options, s);
    BasicKeys(s.value);
    TuningKeys(s.value);
    ChecksumKey(s.value);
    FallbackName();
    FallbackKey(s.value);
    assert Wanted(r, m) == [Knobbed(ChecksumEnabled, r.checksum)] + Offered(Candidates(r), m.options)
                           + [Setting(CONGESTION_CONTROL, r.congestionControl)];
  }

  lemma LegacyIff(r: Request, m: Machine, s: Setting)
    requires m.legacy
    ensures s in Wanted(r, m) <==> LegacyLists(r, s)
  {
    LegacyChecksumKey(s.value);
    LegacyPathManagerKey(s.value);
    LegacySchedulerKey(s.value);
    LegacySynRetriesKey(s.value);
    LegacyVersionKey(s.value);
    assert Wanted(r, m) == LegacySettings(r) + [Setting(CONGESTION_CONTROL, r.congestionControl)];
  }

  /** The list of settings has exactly what the request asks for, each value under its own name. */
  lemma WantedIff(r: Request, m: Machine, s: Setting)
    ensures s in Wanted(r, m) <==> Asks(r, m, s)
  {
    if m.legacy { LegacyIff(r, m, s); } else { MainlineIff(r, m, s); }
  }

  // ----- Numbers

  predicate Digits(s: string) {
    s != "" && forall i | 0 <= i < |s| :: IsDigit(s[i])
  }

  /** Python's `int(s)` for a decimal text with an optional sign. */
  function ReadInt(s: string): Option<int> {
    if Digits(s) then Some(Number(s))
    else if s != "" && s[0] == '-' && Digits(s[1..]) then Some(-(Number(s[1..]) as int))
    else None
  }

  /** A number is written so that it reads back. */
  lemma StrReadsBack(n: int)
    ensures ReadInt(Str(n)) == Some(n)
  {
    if n < 0 {
      NumberOfDecimal(-n);
      assert Str(n)[1..] == Decimal(-n) && Str(n)[0] == '-';
    } else {
      NumberOfDecimal(n);
    }
  }

  // ----- The NanBBR file

  const MEMBER := "{\n  \"aggressiveness\": "

  /** The service's reader: the member's number, when it is between 1 and 100. */
  function ReadAggressiveness(text: string): Option<int> {
    if !StartsWith(text, MEMBER) then None
    else
      var rest := text[|MEMBER|..];
      match ReadInt(rest[..Find(rest, ',')])
      case None => None
      case Some(n) => if 1 <= n <= 100 then Some(n) else None
  }

  lemma NanbbrRest(n: int)
    ensures NanbbrContent(n).Utf8? && StartsWith(NanbbrContent(n).text, MEMBER)
    ensures NanbbrContent(n).text[|MEMBER|..] == Str(n) + ",\n  \"version\": 1\n}\n"
  {
    assert NanbbrContent(n).text == MEMBER + Str(n) + ",\n  \"version\": 1\n}\n";
    assert MEMBER + Str(n) + ",\n  \"version\": 1\n}\n" == MEMBER + (Str(n) + ",\n  \"version\": 1\n}\n");
  }

  /** The NanBBR file reads back as the aggressiveness it was written for. */
  lemma AggressivenessReadsBack(n: int)
    ensures NanbbrContent(n).Utf8?
    ensures ReadAggressiveness(NanbbrContent(n).text) == if 1 <= n <= 100 then Some(n) else None
  {
    NanbbrRest(n);
    StrReadsBack(n);
    NoComma(n);
    var rest := Str(n) + ",\n  \"version\": 1\n}\n";
    assert rest[|Str(n)|] == ',';
    assert forall i :: 0 <= i < |Str(n)| ==> rest[i] == Str(n)[i];
    FindIs(rest, ',', |Str(n)|);
    assert rest[..|Str(n)|] == Str(n);
  }

  lemma NoComma(n: int)
    ensures forall i :: 0 <= i < |Str(n)| ==> Str(n)[i] != ','
  {
    var d := if n < 0 then Decimal(-n) else Decimal(n);
    assert forall i :: 0 <= i < |d| ==> IsDigit(d[i]);
  }

  // ----- What a success leaves

  predicate IsNanbbr(control: string) {
    control == "nanbbr1_var" || control == "nanbbr2_var" || control == "nanbbr3_var"
  }

  /** Every setting the request asks for is live. */
  ghost predicate Obeyed(k: Kernel, r: Request, m: Machine) {
    forall s :: Asks(r, m, s) ==> Sysctl(s.key) in k && k[Sysctl(s.key)] == s.value
  }

  /** Each writable NanBBR parameter and the NanBBR file hold the aggressiveness, if one is given. */
  ghost predicate Levelled(k: Kernel, fs: Files, r: Request, m: Machine) {
    r.aggressiveness.Some? ==>
      && (forall control :: IsNanbbr(control) && control in m.nanbbr ==>
            Parameter(control) in k && ReadInt(k[Parameter(control)]) == r.aggressiveness)
      && NanbbrFile in fs && fs[NanbbrFile].Utf8?
      && (1 <= r.aggressiveness.value <= 100 ==> ReadAggressiveness(fs[NanbbrFile].text) == r.aggressiveness)
  }

  lemma SupportedMembers(m: Machine, control: string)
    ensures control in Supported(m) <==> IsNanbbr(control) && control in m.nanbbr
  {
    FilterMembers(NANBBR_MODULES, name => name in m.nanbbr);
    assert NANBBR_MODULES[0] == "nanbbr1_var" && NANBBR_MODULES[1] == "nanbbr2_var" && NANBBR_MODULES[2] == "nanbbr3_var";
  }

  lemma ParameterReads(k: Kernel, parameters: seq<string>, n: int, control: string)
    requires ParametersHold(k, parameters, Str(n)) && control in parameters
    ensures Parameter(control) in k && ReadInt(k[Parameter(control)]) == Some(n)
  {
    var i :| 0 <= i < |parameters| && parameters[i] == control;
    assert ParameterHolds(k, parameters[i], Str(n));
    StrReadsBack(n);
  }

  lemma SettingsObeyed(k: Kernel, r: Request, m: Machine)
    requires SettingsHold(k, Wanted(r, m))
    ensures Obeyed(k, r, m)
  {
    forall s | Asks(r, m, s) ensures SysctlHolds(k, s) {
      WantedIff(r, m, s);
      var i :| 0 <= i < |Wanted(r, m)| && Wanted(r, m)[i] == s;
      assert SysctlHolds(k, Wanted(r, m)[i]);
    }
  }

  lemma ParametersLevelled(k: Kernel, fs: Files, r: Request, m: Machine)
    requires r.aggressiveness.Some? ==>
               && ParametersHold(k, Supported(m), Str(r.aggressiveness.value))
               && Lookup(fs, NanbbrFile) == Some(NanbbrContent(r.aggressiveness.value))
    ensures Levelled(k, fs, r, m)
  {
    if r.aggressiveness.Some? {
      AggressivenessReadsBack(r.aggressiveness.value);
      forall control | IsNanbbr(control) && control in m.nanbbr
        ensures Parameter(control) in k && ReadInt(k[Parameter(control)]) == r.aggressiveness
      {
        SupportedMembers(m, control);
        ParameterReads(k, Supported(m), r.aggressiveness.value, control);
      }
    }
  }

  /** What a success says about kernel and NanBBR file, in terms of the plan. */
  lemma SuccessHolds(before: State, e: Event, after: State)
    requires Step(before, e, after) && e.reply.Done?
    ensures SettingsHold(after.kernel, Wanted(e.request, e.machine))
    ensures e.request.aggressiveness.Some? ==>
              && ParametersHold(after.kernel, Supported(e.machine), Str(e.request.aggressiveness.value))
              && Lookup(after.files, NanbbrFile) == Some(NanbbrContent(e.request.aggressiveness.value))
  {
    var p := PlanOf(e.request, e.machine);
    assert Achieved(after.kernel, p);
  }

  lemma SuccessInFile(before: State, e: Event, after: State)
    requires Step(before, e, after) && e.reply.Done? && Sound(before)
    ensures Sound(after) && Settings(FileText(after)) == Wanted(e.request, e.machine)
  {
    CommitIsLive(before, after, PlanOf(e.request, e.machine), e.reply.restart);
  }

  /**
   A success has put every value the request asks for under its own name, in the kernel and, for a
   sound file, in the file, which lists nothing else: an option that is not given or not offered is
   not among them. Each writable NanBBR parameter and the NanBBR file hold the aggressiveness.
   */
  lemma SuccessObeys(before: State, e: Event, after: State)
    requires Step(before, e, after) && e.reply.Done?
    ensures Obeyed(after.kernel, e.request, e.machine)
    ensures Levelled(after.kernel, after.files, e.request, e.machine)
    ensures Sound(before) ==>
              Sound(after) && forall s :: s in Settings(FileText(after)) <==> Asks(e.request, e.machine, s)
  {
    SuccessHolds(before, e, after);
    SettingsObeyed(after.kernel, e.request, e.machine);
    ParametersLevelled(after.kernel, after.files, e.request, e.machine);
    if Sound(before) {
      SuccessInFile(before, e, after);
      forall s ensures s in Settings(FileText(after)) <==> Asks(e.request, e.machine, s) { WantedIff(e.request, e.machine, s); }
    }
  }

  lemma SchedulerAsked(r: Request, m: Machine)
    requires !m.legacy && r.scheduler != "" && "scheduler" in m.options
    ensures Asks(r, m, Setting("net.mptcp.scheduler", r.scheduler))
  {
  }

  lemma PathManagerAsked(r: Request, m: Machine)
    requires !m.legacy && r.pathManager != "" && "path_manager" in m.options
    ensures Asks(r, m, Setting("net.mptcp.path_manager", r.pathManager))
  {
  }

  /** For instance: scheduler and path manager end up under their own names. */
  lemma ObeyedInstance(k: Kernel)
    ensures var r := Request("1", "fullmesh", "default", 3, "cubic", 0, 0, 0, 0, 0, None);
            Obeyed(k, r, Machine(false, {"scheduler", "path_manager"}, {}, [])) ==>
              && Sysctl("net.mptcp.scheduler") in k && k[Sysctl("net.mptcp.scheduler")] == "default"
              && Sysctl("net.mptcp.path_manager") in k && k[Sysctl("net.mptcp.path_manager")] == "fullmesh"
  {
    var r := Request("1", "fullmesh", "default", 3, "cubic", 0, 0, 0, 0, 0, None);
    var m := Machine(false, {"scheduler", "path_manager"}, {}, []);
    SchedulerAsked(r, m);
    PathManagerAsked(r, m);
  }

  // ----- What is accepted

  predicate Plain(c: char) {
    IsDigit(c) || 'a' <= c <= 'z' || 'A' <= c <= 'Z' || c == '_' || c == '.' || c == '-'
  }

  /** The one condition each reason for a refusal stands for. */
  ghost predicate Breaks(r: Request, m: Machine, reason: Reason) {
    match reason
    case InvalidParameters =>
      r.checksum == "" || r.pathManager == "" || r.scheduler == "" || r.synRetries == 0 || r.congestionControl == ""
    case InvalidNumeric =>
      (r.checksum != "0" && r.checksum != "1") || r.synRetries < 1 || r.synRetries > 255 || (r.version != 0 && r.version != 1)
    case InvalidName => exists c :: c in r.pathManager + r.scheduler + r.congestionControl && !Plain(c)
    case AggressivenessRequired => IsNanbbr(r.congestionControl) && r.aggressiveness.None?
    case AggressivenessUnsupported =>
      r.aggressiveness.Some? && (if IsNanbbr(r.congestionControl) then r.congestionControl !in m.nanbbr
                                 else forall c :: IsNanbbr(c) ==> c !in m.nanbbr)
    case ControlUnavailable => m.available != [] && r.congestionControl !in m.available
  }

  lemma SafeIff(s: string)
    ensures SafeName(s) <==> s != "" && forall c :: c in s ==> Plain(c)
  {
    if forall c :: c in s ==> Plain(c) {
      forall i | 0 <= i < |s| ensures SafeChar(s[i]) { assert s[i] in s; }
    }
  }

  lemma NamesIff(r: Request, m: Machine)
    ensures SafeName(r.pathManager) && SafeName(r.scheduler) && SafeName(r.congestionControl) <==>
            r.pathManager != "" && r.scheduler != "" && r.congestionControl != "" && !Breaks(r, m, InvalidName)
  {
    SafeIff(r.pathManager);
    SafeIff(r.scheduler);
    SafeIff(r.congestionControl);
  }

  lemma SupportedIff(r: Request, m: Machine)
    ensures r.congestionControl in NANBBR_MODULES <==> IsNanbbr(r.congestionControl)
    ensures Supported(m) == [] <==> forall c :: IsNanbbr(c) ==> c !in m.nanbbr
  {
    forall c ensures c in Supported(m) <==> IsNanbbr(c) && c in m.nanbbr { SupportedMembers(m, c); }
    if Supported(m) != [] { assert Supported(m)[0] in Supported(m); }
  }

  function Order(reason: Reason): nat {
    match reason
    case InvalidParameters => 0
    case InvalidNumeric => 1
    case InvalidName => 2
    case AggressivenessRequired => 3
    case AggressivenessUnsupported => 4
    case ControlUnavailable => 5
  }

  /** A request is accepted exactly when it breaks none of the conditions, and refused for the first that it breaks. */
  lemma AcceptedIff(r: Request, m: Machine)
    ensures Validate(r, m).None? <==> forall reason :: !Breaks(r, m, reason)
    ensures Validate(r, m).Some? ==> Breaks(r, m, Validate(r, m).value)
    ensures Validate(r, m).Some? ==>
              forall reason :: Breaks(r, m, reason) ==> Order(Validate(r, m).value) <= Order(reason)
  {
    NamesIff(r, m);
    SupportedIff(r, m);
    if Validate(r, m).None? {
      forall reason ensures !Breaks(r, m, reason) {
        assert !Breaks(r, m, InvalidName);
        assert reason.AggressivenessUnsupported? ==> !Breaks(r, m, AggressivenessUnsupported);
      }
    } else {
      assert Breaks(r, m, Validate(r, m).value);
    }
  }
}
