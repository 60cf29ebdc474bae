/**
 The `/mptcp` transaction: kernel settings, NanBBR parameters and two files are
 changed step by step under arbitrary faults and rolled back on error.
 */
module Mptcp {
  import opened Lists
  import opened Options
  import opened Text
  import opened MptcpFile

  // ----- The request and the machine

  datatype Request = Request(
    checksum: string,
    pathManager: string,
    scheduler: string,
    synRetries: int,
    congestionControl: string,
    version: int,
    closeTimeout: int,
    pmType: int,
    staleLossCnt: int,
    synRetransBeforeTcpFallback: int,
    aggressiveness: Option<int>)

  /** What the service sees of the kernel: which interface it has, and which controls are loaded. */
  datatype Machine = Machine(
    legacy: bool,                // /proc/sys/net/mptcp/mptcp_enabled exists
    options: set<string>,        // names under /proc/sys/net/mptcp
    nanbbr: set<string>,         // NanBBR var controls with a writable parameter
    available: seq<string>)      // available congestion controls; empty when unreadable

  const NANBBR_MODULES := ["nanbbr1_var", "nanbbr2_var", "nanbbr3_var"]
  const CONGESTION_CONTROL := "net.ipv4.tcp_congestion_control"

  datatype Reason =
    | InvalidParameters
    | InvalidNumeric
    | InvalidName
    | AggressivenessRequired
    | AggressivenessUnsupported
    | ControlUnavailable

  predicate SafeChar(c: char) {
    'A' <= c <= 'Z' || 'a' <= c <= 'z' || '0' <= c <= '9' || c == '_' || c == '.' || c == '-'
  }

  predicate SafeName(s: string) {
    s != "" && forall i :: 0 <= i < |s| ==> SafeChar(s[i])
  }

  /** The checks before anything is touched, in order. */
  function Validate(r: Request, m: Machine): Option<Reason> {
    if r.checksum == "" || r.pathManager == "" || r.scheduler == "" || r.synRetries == 0 || r.congestionControl == "" then
      Some(InvalidParameters)
    else if r.checksum !in ["0", "1"] || !(1 <= r.synRetries <= 255) || r.version !in [0, 1] then
      Some(InvalidNumeric)
    else if !SafeName(r.pathManager) || !SafeName(r.scheduler) || !SafeName(r.congestionControl) then
      Some(InvalidName)
    else if r.congestionControl in NANBBR_MODULES && r.aggressiveness.None? then
      Some(AggressivenessRequired)
    else if r.aggressiveness.Some? && r.congestionControl in NANBBR_MODULES && r.congestionControl !in m.nanbbr then
      Some(AggressivenessUnsupported)
    else if r.aggressiveness.Some? && Supported(m) == [] then
      Some(AggressivenessUnsupported)
    else if m.available != [] && r.congestionControl !in m.available then
      Some(ControlUnavailable)
    else
      None
  }

  function Supported(m: Machine): seq<string> {
    Filter(NANBBR_MODULES, name => name in m.nanbbr)
  }

  /** Python's `str(n)`. */
  function Str(n: int): string {
    if n < 0 then "-" + Decimal(-n) else Decimal(n)
  }

  /** Kernel knobs under `net.mptcp`; the last five belong to the legacy interface. */
  datatype Knob =
    | ChecksumEnabled | Scheduler | PathManager | SynRetries | CloseTimeout | PmType | StaleLossCnt | SynRetransFallback
    | MptcpChecksum | MptcpPathManager | MptcpScheduler | MptcpSynRetries | MptcpVersion

  /** The length and first character of a knob's name, which tell the names apart. */
  function Shape(k: Knob): (nat, char) {
    match k
    case ChecksumEnabled => (16, 'c')
    case Scheduler => (9, 's')
    case PathManager => (12, 'p')
    case SynRetries => (11, 's')
    case CloseTimeout => (13, 'c')
    case PmType => (7, 'p')
    case StaleLossCnt => (14, 's')
    case SynRetransFallback => (31, 's')
    case MptcpChecksum => (14, 'm')
    case MptcpPathManager => (18, 'm')
    case MptcpScheduler => (15, 'm')
    case MptcpSynRetries => (17, 'm')
    case MptcpVersion => (13, 'm')
  }

  function Name(k: Knob): (s: string)
    ensures SafeName(s) && (|s|, s[0]) == Shape(k)
  {
    if IsLegacy(k) then "mptcp_" + LegacyStem(k)
    else if IsTuning(k) then TuningName(k)
    else if k.ChecksumEnabled? || k.SynRetransFallback? then LongName(k)
    else BasicName(k)
  }

  predicate IsLegacy(k: Knob) {
    k.MptcpChecksum? || k.MptcpPathManager? || k.MptcpScheduler? || k.MptcpSynRetries? || k.MptcpVersion?
  }

  predicate IsTuning(k: Knob) {
    k.CloseTimeout? || k.PmType? || k.StaleLossCnt?
  }

  function BasicName(k: Knob): (s: string)
    requires k.Scheduler? || k.PathManager? || k.SynRetries?
    ensures SafeName(s) && (|s|, s[0]) == Shape(k)
  {
    match k
    case Scheduler => "scheduler"
    case PathManager => "path_manager"
    case SynRetries => "syn_retries"
  }

  function TuningName(k: Knob): (s: string)
    requires IsTuning(k)
    ensures SafeName(s) && (|s|, s[0]) == Shape(k)
  {
    match k
    case CloseTimeout => "close_timeout"
    case PmType => "pm_type"
    case StaleLossCnt => "stale_loss_cnt"
  }

  function LongName(k: Knob): (s: string)
    requires k.ChecksumEnabled? || k.SynRetransFallback?
    ensures SafeName(s) && (|s|, s[0]) == Shape(k)
  {
    match k
    case ChecksumEnabled => "checksum_enabled"
    case SynRetransFallback => "syn_retrans_before_tcp_fallback"
  }

  function LegacyStem(k: Knob): (s: string)
    requires IsLegacy(k)
    ensures SafeName(s) && 6 + |s| == Shape(k).0
  {
    match k
    case MptcpChecksum => "checksum"
    case MptcpPathManager => "path_manager"
    case MptcpScheduler => "scheduler"
    case MptcpSynRetries => "syn_retries"
    case MptcpVersion => "version"
  }

  function Knobbed(k: Knob, value: string): Setting {
    Setting("net.mptcp." + Name(k), value)
  }

  /** An optional setting: its knob, its text, and whether the request gives it. */
  datatype Candidate = Candidate(knob: Knob, value: string, given: bool)

  function Candidates(r: Request): seq<Candidate> {
    [ Candidate(Scheduler, r.scheduler, r.scheduler != ""),
      Candidate(PathManager, r.pathManager, r.pathManager != ""),
      Candidate(SynRetries, Str(r.synRetries), r.synRetries != 0),
      Candidate(CloseTimeout, Str(r.closeTimeout), r.closeTimeout != 0),
      Candidate(PmType, Str(r.pmType), r.pmType != 0),
      Candidate(StaleLossCnt, Str(r.staleLossCnt), r.staleLossCnt != 0),
      Candidate(SynRetransFallback, Str(r.synRetransBeforeTcpFallback), r.synRetransBeforeTcpFallback != 0) ]
  }

  /** The candidates that are given and that the kernel offers. */
  function Offered(cs: seq<Candidate>, options: set<string>): seq<Setting> {
    Comprehend(cs, Offering(options), Rendering())
  }

  function Offering(options: set<string>): Candidate -> bool {
    (c: Candidate) => Offers(c, options)
  }

  function Rendering(): Candidate -> Setting {
    (c: Candidate) => Knobbed(c.knob, c.value)
  }

  predicate Offers(c: Candidate, options: set<string>) {
    c.given && Name(c.knob) in options
  }

  function LegacySettings(r: Request): seq<Setting> {
    [ Knobbed(MptcpChecksum, r.checksum),
      Knobbed(MptcpPathManager, r.pathManager),
      Knobbed(MptcpScheduler, r.scheduler),
      Knobbed(MptcpSynRetries, Str(r.synRetries)),
      Knobbed(MptcpVersion, Str(r.version)) ]
  }

  /** The settings under `net.mptcp`. */
  function MptcpSettings(r: Request, m: Machine): seq<Setting> {
    if m.legacy then LegacySettings(r)
    else [Knobbed(ChecksumEnabled, r.checksum)] + Offered(Candidates(r), m.options)
  }

  /** The settings to apply, the congestion control last. */
  function Wanted(r: Request, m: Machine): seq<Setting> {
    MptcpSettings(r, m) + [Setting(CONGESTION_CONTROL, r.congestionControl)]
  }

  /** The list of settings as the service builds it, one option at a time. */
  method BuildSettings(r: Request, m: Machine) returns (settings: seq<Setting>)
    ensures settings == Wanted(r, m)
  {
    if m.legacy {
      settings := LegacySettings(r);
    } else {
      settings := AppendAll([Knobbed(ChecksumEnabled, r.checksum)], Candidates(r), Offering(m.options), Rendering());
    }
    settings := settings + [Setting(CONGESTION_CONTROL, r.congestionControl)];
  }

  /** An optional setting is applied exactly when the request gives it and the kernel offers it. */
  lemma OfferedIff(cs: seq<Candidate>, options: set<string>, s: Setting)
    ensures s in Offered(cs, options) <==>
            exists i :: 0 <= i < |cs| && Offers(cs[i], options) && s == Knobbed(cs[i].knob, cs[i].value)
  {
    ComprehendIff(cs, Offering(options), Rendering(), s);
    assert forall i :: 0 <= i < |cs| ==> Rendering()(cs[i]) == Knobbed(cs[i].knob, cs[i].value);
  }

  // ----- A plan: what one accepted request changes

  datatype Plan = Plan(settings: seq<Setting>, parameters: seq<string>, aggressiveness: Option<int>)

  function PlanOf(r: Request, m: Machine): Plan {
    Plan(Wanted(r, m), if r.aggressiveness.Some? then Supported(m) else [], r.aggressiveness)
  }

  predicate DistinctKeys(settings: seq<Setting>) {
    forall i, j :: 0 <= i < j < |settings| ==> settings[i].key != settings[j].key
  }

  predicate WellFormed(p: Plan) {
    && Writable(p.settings)
    && DistinctKeys(p.settings)
    && Distinct(p.parameters)
    && (p.parameters != [] ==> p.aggressiveness.Some?)
  }

  lemma SafeIsOneLine(s: string)
    requires forall i :: 0 <= i < |s| ==> SafeChar(s[i])
    ensures NoBreak(s) && '=' !in s
  {
  }

  lemma StrIsOneLine(n: int)
    ensures NoBreak(Str(n)) && '=' !in Str(n)
  {
    var d := if n < 0 then Decimal(-n) else Decimal(n);
    assert forall i :: 0 <= i < |d| ==> IsDigit(d[i]);
    assert forall i :: 0 <= i < |Str(n)| ==> SafeChar(Str(n)[i]);
    SafeIsOneLine(Str(n));
  }

  lemma KeyInjective(a: Knob, x: string, b: Knob, y: string)
    ensures Knobbed(a, x).key == Knobbed(b, y).key <==> a == b
  {
    PrefixCancels("net.mptcp.", Name(a), Name(b));
    ShapesDiffer(a, b);
  }

  lemma PrefixCancels(prefix: string, s: string, t: string)
    ensures prefix + s == prefix + t <==> s == t
  {
    assert (prefix + s)[|prefix|..] == s && (prefix + t)[|prefix|..] == t;
  }

  lemma ShapesDiffer(a: Knob, b: Knob)
    ensures Shape(a) == Shape(b) <==> a == b
  {
  }

  lemma ManagedPrefix(name: string)
    ensures Managed("net.mptcp." + name)
  {
    var key := "net.mptcp." + name;
    assert key[0..9] == "net.mptcp";
    assert OccursAt("net.mptcp", key, 0);
  }

  lemma SafePrefix()
    ensures SafeName("net.mptcp.")
  {
  }

  lemma SafeJoin(a: string, b: string)
    requires SafeName(a) && SafeName(b)
    ensures SafeName(a + b)
  {
  }

  lemma KnobbedIsOneLine(k: Knob, value: string)
    requires NoBreak(value)
    ensures OneLine(Knobbed(k, value))
  {
    ManagedPrefix(Name(k));
    SafePrefix();
    SafeJoin("net.mptcp.", Name(k));
    SafeIsOneLine("net.mptcp." + Name(k));
  }

  lemma ControlKey(value: string)
    requires NoBreak(value)
    ensures OneLine(Setting(CONGESTION_CONTROL, value))
  {
    assert OccursAt("net.ipv4.tcp_congestion_control", CONGESTION_CONTROL, 0);
    assert SafeName(CONGESTION_CONTROL);
    SafeIsOneLine(CONGESTION_CONTROL);
  }

  lemma ControlKeyDiffers(k: Knob, value: string)
    ensures Knobbed(k, value).key != CONGESTION_CONTROL
  {
    assert Knobbed(k, value).key[4] == 'm' && CONGESTION_CONTROL[4] == 'i';
  }

  /** A list of settings under `net.mptcp`, given by distinct knobs. */
  predicate Under(settings: seq<Setting>, knobs: seq<Knob>) {
    && |settings| == |knobs|
    && Distinct(knobs)
    && forall i :: 0 <= i < |knobs| ==> settings[i] == Knobbed(knobs[i], settings[i].value) && NoBreak(settings[i].value)
  }

  lemma UnderFacts(settings: seq<Setting>, knobs: seq<Knob>, control: string)
    requires Under(settings, knobs) && NoBreak(control)
    ensures Writable(settings + [Setting(CONGESTION_CONTROL, control)])
    ensures DistinctKeys(settings + [Setting(CONGESTION_CONTROL, control)])
  {
    ControlKey(control);
    forall i | 0 <= i < |settings|
      ensures OneLine(settings[i]) && settings[i].key != CONGESTION_CONTROL
    {
      KnobbedIsOneLine(knobs[i], settings[i].value);
      ControlKeyDiffers(knobs[i], settings[i].value);
    }
    forall i, j | 0 <= i < j < |settings|
      ensures settings[i].key != settings[j].key
    {
      KeyInjective(knobs[i], settings[i].value, knobs[j], settings[j].value);
    }
  }

  lemma ConsUnder(k: Knob, value: string, settings: seq<Setting>, knobs: seq<Knob>)
    requires Under(settings, knobs) && k !in knobs && NoBreak(value)
    ensures Under([Knobbed(k, value)] + settings, [k] + knobs)
  {
  }

  function KnobsOf(cs: seq<Candidate>): (ks: seq<Knob>)
    ensures |ks| == |cs| && forall i :: 0 <= i < |ks| ==> ks[i] == cs[i].knob
  {
    seq(|cs|, i requires 0 <= i < |cs| => cs[i].knob)
  }

  lemma {:induction false} OfferedUnder(cs: seq<Candidate>, options: set<string>) returns (knobs: seq<Knob>)
    requires forall i :: 0 <= i < |cs| ==> NoBreak(cs[i].value)
    requires Distinct(KnobsOf(cs))
    ensures Under(Offered(cs, options), knobs)
    ensures forall k :: k in knobs ==> k in KnobsOf(cs)
  {
    if cs == [] {
      knobs := [];
    } else {
      var first, rest := cs[0], cs[1..];
      assert KnobsOf(cs)[0] == first.knob && KnobsOf(cs)[1..] == KnobsOf(rest);
      knobs := OfferedUnder(rest, options);
      if Offers(first, options) {
        assert first.knob !in knobs;
        ConsUnder(first.knob, first.value, Offered(rest, options), knobs);
        knobs := [first.knob] + knobs;
      }
    }
  }

  lemma CandidateValues(r: Request)
    requires SafeName(r.pathManager) && SafeName(r.scheduler)
    ensures forall i :: 0 <= i < |Candidates(r)| ==> NoBreak(Candidates(r)[i].value)
  {
    SafeIsOneLine(r.pathManager);
    SafeIsOneLine(r.scheduler);
    StrIsOneLine(r.synRetries);
    StrIsOneLine(r.closeTimeout);
    StrIsOneLine(r.pmType);
    StrIsOneLine(r.staleLossCnt);
    StrIsOneLine(r.synRetransBeforeTcpFallback);
  }

  lemma CandidateKnobs(r: Request)
    ensures KnobsOf(Candidates(r)) ==
            [Scheduler, PathManager, SynRetries, CloseTimeout, PmType, StaleLossCnt, SynRetransFallback]
  {
  }

  lemma LegacyUnder(r: Request)
    requires SafeName(r.pathManager) && SafeName(r.scheduler) && NoBreak(r.checksum)
    ensures Under(LegacySettings(r), [MptcpChecksum, MptcpPathManager, MptcpScheduler, MptcpSynRetries, MptcpVersion])
  {
    SafeIsOneLine(r.pathManager);
    SafeIsOneLine(r.scheduler);
    StrIsOneLine(r.synRetries);
    StrIsOneLine(r.version);
    FiveUnder(MptcpChecksum, r.checksum, MptcpPathManager, r.pathManager, MptcpScheduler, r.scheduler,
              MptcpSynRetries, Str(r.synRetries), MptcpVersion, Str(r.version));
  }

  lemma FiveUnder(a: Knob, u: string, b: Knob, v: string, c: Knob, w: string, d: Knob, x: string, e: Knob, y: string)
    requires Distinct([a, b, c, d, e])
    requires NoBreak(u) && NoBreak(v) && NoBreak(w) && NoBreak(x) && NoBreak(y)
    ensures Under([Knobbed(a, u), Knobbed(b, v), Knobbed(c, w), Knobbed(d, x), Knobbed(e, y)], [a, b, c, d, e])
  {
  }

  lemma MainlineUnder(r: Request, m: Machine) returns (knobs: seq<Knob>)
    requires SafeName(r.pathManager) && SafeName(r.scheduler) && NoBreak(r.checksum)
    ensures Under([Knobbed(ChecksumEnabled, r.checksum)] + Offered(Candidates(r), m.options), knobs)
  {
    CandidateValues(r);
    CandidateKnobs(r);
    knobs := OfferedUnder(Candidates(r), m.options);
    assert ChecksumEnabled !in knobs;
    ConsUnder(ChecksumEnabled, r.checksum, Offered(Candidates(r), m.options), knobs);
    knobs := [ChecksumEnabled] + knobs;
  }

  lemma MptcpSettingsUnder(r: Request, m: Machine) returns (knobs: seq<Knob>)
    requires SafeName(r.pathManager) && SafeName(r.scheduler) && NoBreak(r.checksum)
    ensures Under(MptcpSettings(r, m), knobs)
  {
    if m.legacy {
      LegacyUnder(r);
      knobs := [MptcpChecksum, MptcpPathManager, MptcpScheduler, MptcpSynRetries, MptcpVersion];
    } else {
      knobs := MainlineUnder(r, m);
    }
  }

  /**
   Every accepted request gives a plan of distinct one-line settings, the
   congestion control last, with a NanBBR parameter exactly when an
   aggressiveness is given, and always the one of the requested control.
   */
  lemma PlanWellFormed(r: Request, m: Machine)
    requires Validate(r, m).None?
    ensures WellFormed(PlanOf(r, m))
    ensures PlanOf(r, m).settings[|PlanOf(r, m).settings| - 1] == Setting(CONGESTION_CONTROL, r.congestionControl)
    ensures r.aggressiveness.Some? <==> PlanOf(r, m).parameters != []
    ensures r.congestionControl in NANBBR_MODULES ==> r.congestionControl in PlanOf(r, m).parameters
  {
    assert NoBreak("0") && NoBreak("1");
    var knobs := MptcpSettingsUnder(r, m);
    SafeIsOneLine(r.congestionControl);
    UnderFacts(MptcpSettings(r, m), knobs, r.congestionControl);
    SupportedDistinct(m);
    FilterMembers(NANBBR_MODULES, name => name in m.nanbbr);
  }

  lemma SupportedDistinct(m: Machine)
    ensures Distinct(Supported(m))
  {
    assert "nanbbr1_var"[6] == '1' && "nanbbr2_var"[6] == '2' && "nanbbr3_var"[6] == '3';
    DistinctFilter(NANBBR_MODULES, name => name in m.nanbbr);
  }
}
