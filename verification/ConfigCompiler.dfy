/** From an operator's profile to what the kernel does: the controller's response,
    the agent's checks and mapping, and the meaning they preserve end to end. */
module ConfigCompiler {
  import opened Decimal
  import opened KernelConfig
  import opened EvidenceProfile
  import StorageMonitor
  import ExitFilter
  import RttBaseline
  import RttMeaning
  import StorageEvents

  const WIRE_VERSION := "tapio-wire/v1"
  const U32_MAX: nat := 0xFFFF_FFFF

  datatype ConfigResponse = ConfigResponse(
    wireVersion: string, version: string, configHash: string, config: CompiledConfig,
    sendIntervalMs: nat, maxBatchEvents: nat)

  datatype Rejection = BadVersion | UnsupportedWire | MissingVersion | ZeroField(field: string) | MissingHash

  /** The agent's mapping to the kernel ABI. */
  function TapioConfigFromCompiled(c: CompiledConfig, version: string): Result<TapioConfig, Rejection> {
    match ParseUnsigned(version, U32_MAX)
    case None => Err(BadVersion)
    case Some(generation) =>
      Ok(TapioConfig(ABI_VERSION, generation, Flags(c), c.storage.slowIoWarningNs, c.storage.slowIoCriticalNs,
                     c.network.connRefusedWindowNs, c.network.connRefusedMinCount, c.network.rttSpikeRatio,
                     c.network.rttSpikeAbsUs, c.network.rttMinBaselineSamples,
                     ClampIgnoreExitCount(|c.container.ignoreExitCodes|), Slots(c.container.ignoreExitCodes)))
  }

  function Flags(c: CompiledConfig): bv64 {
    (if c.network.enabled then F_NETWORK else 0)
    | (if c.storage.enabled then F_STORAGE else 0)
    | (if c.container.enabled then F_CONTAINER else 0)
    | (if c.nodePmc.enabled then F_NODE_PMC else 0)
  }

  function Slots(codes: seq<int>): (slots: seq<int>)
    ensures |slots| == CONFIG_MAX_IGNORE_EXIT_CODES
  {
    seq(CONFIG_MAX_IGNORE_EXIT_CODES, i => if 0 <= i < |codes| then codes[i] else 0)
  }

  /** The source's form: flags ORed in, then a zip over the fixed slots. */
  method BuildTapioConfig(c: CompiledConfig, version: string) returns (r: Result<TapioConfig, Rejection>)
    ensures r == TapioConfigFromCompiled(c, version)
  {
    var parsed := ParseUnsigned(version, U32_MAX);
    if parsed == None {
      return Err(BadVersion);
    }
    var flags: bv64 := 0;
    if c.network.enabled { flags := flags | F_NETWORK; }
    if c.storage.enabled { flags := flags | F_STORAGE; }
    if c.container.enabled { flags := flags | F_CONTAINER; }
    if c.nodePmc.enabled { flags := flags | F_NODE_PMC; }
    var codes := c.container.ignoreExitCodes;
    var slots := new int[CONFIG_MAX_IGNORE_EXIT_CODES](_ => 0);
    var i := 0;
    while i < CONFIG_MAX_IGNORE_EXIT_CODES && i < |codes|
      invariant 0 <= i <= CONFIG_MAX_IGNORE_EXIT_CODES && i <= |codes|
      invariant forall k | 0 <= k < CONFIG_MAX_IGNORE_EXIT_CODES :: slots[k] == if k < i then codes[k] else 0
    {
      slots[i] := codes[i];
      i := i + 1;
    }
    assert slots[..] == Slots(codes);
    var count := if |codes| < CONFIG_MAX_IGNORE_EXIT_CODES then |codes| else CONFIG_MAX_IGNORE_EXIT_CODES;
    return Ok(TapioConfig(ABI_VERSION, parsed.value, flags, c.storage.slowIoWarningNs, c.storage.slowIoCriticalNs,
                          c.network.connRefusedWindowNs, c.network.connRefusedMinCount, c.network.rttSpikeRatio,
                          c.network.rttSpikeAbsUs, c.network.rttMinBaselineSamples, count, slots[..]));
  }

  // ----- meaning -----

  /** A handler's gate opens exactly for the observers the config enables. */
  lemma FlagsMean(c: CompiledConfig)
    ensures Flags(c) & F_NETWORK != 0 <==> c.network.enabled
    ensures Flags(c) & F_STORAGE != 0 <==> c.storage.enabled
    ensures Flags(c) & F_CONTAINER != 0 <==> c.container.enabled
    ensures Flags(c) & F_NODE_PMC != 0 <==> c.nodePmc.enabled
  {
  }

  /** Severity straight from the operator's milliseconds. */
  function SeverityByProfile(s: ResolvedStorage, errorCode: int, latencyNs: nat): Option<StorageMonitor.Severity> {
    if errorCode != 0 || latencyNs >= s.criticalMs * 1_000_000 then Some(StorageMonitor.Critical)
    else if latencyNs >= s.warningMs * 1_000_000 then Some(StorageMonitor.Warning)
    else None
  }

  /** Whether an exit is worth an event straight from the operator's list. */
  predicate ExitByProfile(profile: Profile, status: nat) {
    var code := status / 256;
    && Effective(profile).container.enabled
    && (code != 0 || status % 128 != 0)
    && code !in Or(profile.container.ignoreExitCodes, [])
  }

  /** The kernel config an accepted profile ends in. */
  function KernelConfigOf(profile: Profile, generation: nat): Result<TapioConfig, Rejection> {
    TapioConfigFromCompiled(Compile(Effective(profile)), ToString(generation))
  }

  /** The mapping keeps every field of any compiled config under its own name, and the
      codes up to the number of slots. */
  lemma MappingKeepsFields(c: CompiledConfig, version: string)
    ensures var mapped := TapioConfigFromCompiled(c, version);
            && (mapped.Ok? <==> ParseUnsigned(version, 0xFFFF_FFFF).Some?)
            && (mapped.Ok? ==>
                  var k := mapped.value;
                  && Some(k.generation) == ParseUnsigned(version, 0xFFFF_FFFF) && k.abiVersion == 2
                  && k.slowIoThresholdNs == c.storage.slowIoWarningNs
                  && k.ioLatencyCriticalNs == c.storage.slowIoCriticalNs
                  && k.connRefusedWindowNs == c.network.connRefusedWindowNs
                  && k.connRefusedMinCount == c.network.connRefusedMinCount
                  && k.rttSpikeMultiplier == c.network.rttSpikeRatio && k.rttSpikeAbsUs == c.network.rttSpikeAbsUs
                  && k.rttMinBaselineSamples == c.network.rttMinBaselineSamples
                  && |k.ignoreExitCodes| == 16
                  && k.ignoreExitCount == (if |c.container.ignoreExitCodes| > 16 then 16
                                           else |c.container.ignoreExitCodes|)
                  && k.ignoreExitCodes[..k.ignoreExitCount] == c.container.ignoreExitCodes[..k.ignoreExitCount])
  {
    if TapioConfigFromCompiled(c, version).Ok? {
      var k, codes := TapioConfigFromCompiled(c, version).value, c.container.ignoreExitCodes;
      var n := k.ignoreExitCount;
      assert forall i | 0 <= i < n :: Slots(codes)[..n][i] == codes[..n][i];
    }
  }

  lemma KernelConfigFields(profile: Profile, generation: nat)
    requires Acceptable(profile) && generation <= U32_MAX
    ensures KernelConfigOf(profile, generation).Ok?
    ensures var k := KernelConfigOf(profile, generation).value;
            var c := Compile(Effective(profile));
            && k.abiVersion == ABI_VERSION && k.generation == generation && k.flags == Flags(c)
            && k.slowIoThresholdNs == c.storage.slowIoWarningNs && k.ioLatencyCriticalNs == c.storage.slowIoCriticalNs
            && k.rttSpikeMultiplier == c.network.rttSpikeRatio && k.rttSpikeAbsUs == c.network.rttSpikeAbsUs
            && k.rttMinBaselineSamples == c.network.rttMinBaselineSamples
            && k.connRefusedWindowNs == c.network.connRefusedWindowNs
            && k.connRefusedMinCount == c.network.connRefusedMinCount
            && k.ignoreExitCount == |c.container.ignoreExitCodes| <= CONFIG_MAX_IGNORE_EXIT_CODES
            && |k.ignoreExitCodes| == CONFIG_MAX_IGNORE_EXIT_CODES
            && k.ignoreExitCodes[..k.ignoreExitCount] == c.container.ignoreExitCodes
  {
    ParseToString(generation, U32_MAX);
    var codes := Compile(Effective(profile)).container.ignoreExitCodes;
    assert Slots(codes)[..|codes|] == codes;
  }

  /** The kernel's storage verdict is the operator's thresholds, in nanoseconds. */
  lemma StorageMeaning(profile: Profile, generation: nat, errorCode: int, latencyNs: nat)
    requires Acceptable(profile) && generation <= U32_MAX
    ensures KernelConfigOf(profile, generation).Ok?
         && StorageMonitor.Judge(KernelConfigOf(profile, generation).value, errorCode, latencyNs)
            == SeverityByProfile(Effective(profile).storage, errorCode, latencyNs)
  {
    KernelConfigFields(profile, generation);
    CompilesExactly(Effective(profile));
  }

  /** On every run, an event emitted under an accepted profile's config has the severity
      that the operator's thresholds give its error code and latency. */
  lemma StorageEventsMean(
    profile: Profile, generation: nat, start: TapioConfig, trace: seq<StorageMonitor.Step>, k: nat, p: nat, j: nat)
    requires Acceptable(profile) && generation <= U32_MAX && k < |StorageMonitor.Run(start, trace).events|
    requires StorageEvents.EventTold(start, trace, StorageMonitor.Run(start, trace).events[k], k, p, j)
    requires KernelConfigOf(profile, generation) == Ok(StorageMonitor.ConfigAt(start, trace, p))
    ensures var event := StorageMonitor.Run(start, trace).events[k];
            && event.generation == generation
            && SeverityByProfile(Effective(profile).storage, event.errorCode, event.latencyNs) == Some(event.severity)
  {
    KernelConfigFields(profile, generation);
    CompilesExactly(Effective(profile));
  }

  /** The kernel drops exactly normal exits and the codes the operator listed,
      through deduplication, the sixteen slots and the clamp. */
  lemma ExitMeaning(profile: Profile, generation: nat, status: nat)
    requires Acceptable(profile) && generation <= U32_MAX
    ensures KernelConfigOf(profile, generation).Ok?
    ensures var k := KernelConfigOf(profile, generation).value;
            |k.ignoreExitCodes| == CONFIG_MAX_IGNORE_EXIT_CODES
            && ExitFilter.ExitVerdict(k, status)
               == if ExitByProfile(profile, status)
                  then Some(ExitFilter.ExitEvent(generation, status / 256, status % 128)) else None
  {
    KernelConfigFields(profile, generation);
    FlagsMean(Compile(Effective(profile)));
  }

  /** A kernel config that some accepted profile ends in. */
  ghost predicate FromProfile(k: TapioConfig) {
    exists profile, generation: nat | Acceptable(profile) && generation <= U32_MAX ::
      KernelConfigOf(profile, generation) == Ok(k)
  }

  /** A run of the network handler under accepted profiles, which may change on the
      way, with RTTs up to 42,949,672 us. */
  ghost predicate ProfiledCalls(calls: seq<RttBaseline.Call>) {
    forall i | 0 <= i < |calls| && calls[i].Handle? ::
      FromProfile(calls[i].config) && RttBaseline.SampleOf(calls[i]).rttUs <= RttBaseline.EXACT_RTT_MAX
  }

  lemma ProfilesFixTheSetting(k: TapioConfig)
    requires FromProfile(k)
    ensures k.rttMinBaselineSamples == 5 && 1 <= k.rttSpikeMultiplier <= 100
  {
    var profile, generation: nat :|
      Acceptable(profile) && generation <= U32_MAX && KernelConfigOf(profile, generation) == Ok(k);
    KernelConfigFields(profile, generation);
  }

  lemma ProfiledWithin(calls: seq<RttBaseline.Call>)
    requires ProfiledCalls(calls)
    ensures RttBaseline.CallsWithin(calls, 5, RttBaseline.EXACT_RTT_MAX)
  {
    forall i | 0 <= i < |calls| && calls[i].Handle? ensures calls[i].config.rttMinBaselineSamples == 5 {
      ProfilesFixTheSetting(calls[i].config);
    }
  }

  /** What the operator's network settings make of one call: nothing unless the observer
      is enabled, the connection established and an RTT known; else the entry becomes
      what the sample means with five samples a baseline, and an event is emitted, or
      without a slot lost, exactly when the entry was learned and the RTT exceeds the
      ratio times its baseline now, or the milliseconds. */
  ghost predicate ProfileCallMeans(
    before: RttBaseline.Table, call: RttBaseline.Call, n: ResolvedNetwork, after: RttBaseline.Table)
    requires call.Handle?
  {
    var entry, sample := RttBaseline.Lookup(before.baselineRtt, call.key), RttBaseline.SampleOf(call);
    if !(n.enabled && call.established && sample.rttUs > 0) || (entry == None && !call.room) then after == before
    else
      && call.key in after.baselineRtt
      && (var a := after.baselineRtt[call.key];
          var spikes := entry.Some? && entry.value.phase == RttBaseline.Stable
                        && (sample.rttUs > a.baselineUs * n.ratio || sample.rttUs > n.absMs * 1_000);
          && after.baselineRtt == before.baselineRtt[call.key := a]
          && RttMeaning.SampleMeans(entry, sample, 5, a)
          && after.lostEvents == before.lostEvents + (if spikes && !call.slot then 1 else 0)
          && |after.events| == |before.events| + (if spikes && call.slot then 1 else 0)
          && before.events <= after.events
          && (spikes && call.slot ==> RttMeaning.EventSays(after.events[|before.events|], call, a)))
  }

  /** What the kernel does is what the operator's network settings say, over any run
      under accepted profiles, in the handler's own u32 arithmetic. */
  lemma NetworkMeaning(calls: seq<RttBaseline.Call>, call: RttBaseline.Call, profile: Profile, generation: nat)
    requires Acceptable(profile) && generation <= U32_MAX
    requires ProfiledCalls(calls + [call]) && call.Handle? && KernelConfigOf(profile, generation) == Ok(call.config)
    ensures ProfileCallMeans(RttBaseline.ServeAll(calls), call, Effective(profile).network,
                             RttBaseline.ServeAll(calls + [call]))
  {
    ProfiledSplit(calls, call);
    ProfilesFixTheSetting(call.config);
    ProfiledWithin(calls);
    ProfiledWithin([call]);
    RttMeaning.EveryCallMeans(calls, call, 5);
    CallMeansProfile(RttBaseline.ServeAll(calls), call, profile, generation, RttBaseline.ServeAll(calls + [call]));
  }

  lemma ProfiledSplit(calls: seq<RttBaseline.Call>, call: RttBaseline.Call)
    requires ProfiledCalls(calls + [call])
    ensures call.Handle? ==> FromProfile(call.config)
    ensures ProfiledCalls(calls) && ProfiledCalls([call])
  {
    assert forall i | 0 <= i < |calls| :: (calls + [call])[i] == calls[i];
    assert (calls + [call])[|calls|] == call;
  }

  lemma CallMeansProfile(
    before: RttBaseline.Table, call: RttBaseline.Call, profile: Profile, generation: nat, after: RttBaseline.Table)
    requires Acceptable(profile) && generation <= U32_MAX
    requires call.Handle? && KernelConfigOf(profile, generation) == Ok(call.config)
    requires RttMeaning.CallMeans(before, call, 5, after)
    ensures ProfileCallMeans(before, call, Effective(profile).network, after)
  {
    KernelConfigFields(profile, generation);
    CompilesExactly(Effective(profile));
    GatesMean(profile, generation);
  }

  /** Each observer runs exactly when the profile enables it. */
  lemma GatesMean(profile: Profile, generation: nat)
    requires Acceptable(profile) && generation <= U32_MAX
    ensures KernelConfigOf(profile, generation).Ok?
    ensures var k := KernelConfigOf(profile, generation).value;
            var e := Effective(profile);
            && (Enabled(k, F_NETWORK) <==> e.network.enabled)
            && (Enabled(k, F_STORAGE) <==> e.storage.enabled)
            && (Enabled(k, F_CONTAINER) <==> e.container.enabled)
            && (Enabled(k, F_NODE_PMC) <==> e.nodePmc.enabled)
  {
    KernelConfigFields(profile, generation);
    FlagsMean(Compile(Effective(profile)));
  }

  /** A disabled storage observer inserts nothing and emits nothing. */
  lemma DisabledStorageIsSilent(profile: Profile, generation: nat, m: StorageMonitor.Monitor, step: StorageMonitor.Step)
    requires Acceptable(profile) && generation <= U32_MAX && !Effective(profile).storage.enabled
    requires KernelConfigOf(profile, generation) == Ok(m.config)
    ensures StorageMonitor.Apply(m, step).events == m.events
    ensures StorageMonitor.Apply(m, step).inflight.Keys <= m.inflight.Keys
  {
    GatesMean(profile, generation);
  }

  /** Under another ABI version every handler is silent, whatever the flags say: no
      storage entry and no event, no RTT entry and no event, no exit event. */
  lemma OtherAbiIsSilent(
    m: StorageMonitor.Monitor, step: StorageMonitor.Step, t: RttBaseline.Table, call: RttBaseline.Call, status: nat)
    requires m.config.abiVersion != 2 && |m.config.ignoreExitCodes| == CONFIG_MAX_IGNORE_EXIT_CODES
    requires call.Handle? && call.config == m.config
    ensures StorageMonitor.Apply(m, step).events == m.events
    ensures StorageMonitor.Apply(m, step).inflight.Keys <= m.inflight.Keys
    ensures RttBaseline.Serve(t, call) == t
    ensures ExitFilter.ExitVerdict(m.config, status) == None
  {
  }

  /** The PMC sampler's thresholds, back in the operator's units. */
  datatype PmcThresholds = PmcThresholds(stallWarning: real, stallCritical: real, ipcDegradation: real)

  function PmcThresholdsFromCompiled(c: CompiledConfig): PmcThresholds {
    PmcThresholds(c.nodePmc.stallWarningPermille as real / 10.0, c.nodePmc.stallCriticalPermille as real / 10.0,
                  c.nodePmc.ipcDegradationMilli as real / 1000.0)
  }

  /** The sampler works with the operator's thresholds to half a permille of a percent
      point and half a thousandth, and with warning at most critical. */
  lemma PmcMeaning(profile: Profile)
    requires Acceptable(profile)
    ensures var t, n := PmcThresholdsFromCompiled(Compile(Effective(profile))), Effective(profile).nodePmc;
            && -0.05 <= t.stallWarning - n.stallWarning <= 0.05
            && -0.05 <= t.stallCritical - n.stallCritical <= 0.05
            && -0.0005 <= t.ipcDegradation - n.ipcDegradation <= 0.0005
            && t.stallWarning <= t.stallCritical
  {
    CompilesExactly(Effective(profile));
  }

  // ----- the response and the agent's checks -----

  /** `digest` stands for the SHA-256 of the serialized config, in hexadecimal. */
  function ConfigHash(c: CompiledConfig, digest: CompiledConfig -> string): string { "sha256:" + digest(c) }

  function ConfigResponseFromCompiled(c: CompiledConfig, generation: nat, digest: CompiledConfig -> string)
    : ConfigResponse
  {
    ConfigResponse(WIRE_VERSION, ToString(generation), ConfigHash(c, digest), c, 1_000, 256)
  }

  predicate IsBlank(s: string) { forall c | c in s :: c == ' ' || '\t' <= c <= '\r' }

  function ValidateResponse(r: ConfigResponse): Result<(), Rejection> {
    if r.wireVersion != WIRE_VERSION then Err(UnsupportedWire)
    else if IsBlank(r.version) then Err(MissingVersion)
    else if r.config.storage.slowIoWarningNs == 0 then Err(ZeroField("config.storage.slow_io_warning_ns"))
    else if r.config.storage.slowIoCriticalNs == 0 then Err(ZeroField("config.storage.slow_io_critical_ns"))
    else if r.sendIntervalMs == 0 then Err(ZeroField("batching.send_interval_ms"))
    else if r.maxBatchEvents == 0 then Err(ZeroField("batching.max_batch_events"))
    else Ok(())
  }

  /** Everything the agent checks before it applies a 200 response, in order. */
  function AgentCheck(r: ConfigResponse): Result<TapioConfig, Rejection> {
    if ParseUnsigned(r.version, U32_MAX) == None then Err(BadVersion)
    else
      var _ :- ValidateResponse(r);
      if r.configHash == "" then Err(MissingHash)
      else TapioConfigFromCompiled(r.config, r.version)
  }

  /** What passes, and which check fails first otherwise. */
  lemma AgentCheckIff(r: ConfigResponse)
    ensures var checked := AgentCheck(r);
            var parsed := ParseUnsigned(r.version, 0xFFFF_FFFF);
            var storage := r.config.storage;
            && (checked.Ok? <==>
                  && parsed.Some? && r.wireVersion == "tapio-wire/v1"
                  && storage.slowIoWarningNs > 0 && storage.slowIoCriticalNs > 0
                  && r.sendIntervalMs > 0 && r.maxBatchEvents > 0 && r.configHash != "")
            && (checked.Ok? ==> checked.value.generation == parsed.value)
            && (checked == Err(BadVersion) <==> parsed == None)
            && (checked == Err(UnsupportedWire) <==> parsed.Some? && r.wireVersion != "tapio-wire/v1")
            && checked != Err(MissingVersion)
            && (parsed.Some? && r.wireVersion == "tapio-wire/v1" ==>
                  && (checked == Err(ZeroField("config.storage.slow_io_warning_ns")) <==> storage.slowIoWarningNs == 0)
                  && (checked == Err(ZeroField("config.storage.slow_io_critical_ns"))
                      <==> storage.slowIoWarningNs > 0 && storage.slowIoCriticalNs == 0)
                  && (checked == Err(ZeroField("batching.send_interval_ms"))
                      <==> storage.slowIoWarningNs > 0 && storage.slowIoCriticalNs > 0 && r.sendIntervalMs == 0)
                  && (checked == Err(MissingHash)
                      <==> storage.slowIoWarningNs > 0 && storage.slowIoCriticalNs > 0 && r.sendIntervalMs > 0
                           && r.maxBatchEvents > 0 && r.configHash == ""))
  {
    if ParseUnsigned(r.version, U32_MAX).Some? {
      ParsesIff(r.version, U32_MAX, ParseUnsigned(r.version, U32_MAX).value);
      NotBlank(r.version);
    }
  }

  lemma NotBlank(s: string)
    requires |s| > 0 && (AllDigits(s) || (|s| > 1 && AllDigits(s[1..])))
    ensures !IsBlank(s)
  {
    if AllDigits(s) {
      assert s[0] in s && IsDigit(s[0]);
    } else {
      assert s[1..][0] == s[1] && s[1] in s && IsDigit(s[1..][0]);
    }
  }

  /** Two responses have the same hash exactly when their configs have the same digest,
      whatever their generations; the rest of a response says what it serves. */
  lemma HashesTellDigests(
    c: CompiledConfig, generation: nat, other: CompiledConfig, later: nat, digest: CompiledConfig -> string)
    ensures var r, s := ConfigResponseFromCompiled(c, generation, digest),
                        ConfigResponseFromCompiled(other, later, digest);
            && (r.configHash == s.configHash <==> digest(c) == digest(other))
            && r.config == c && r.configHash != ""
            && ParseUnsigned(r.version, 0xFFFF_FFFF) == (if generation <= 0xFFFF_FFFF then Some(generation) else None)
            && r.sendIntervalMs == 1_000 && r.maxBatchEvents == 256
  {
    var a, b := digest(c), digest(other);
    assert ("sha256:" + a)[7..] == a && ("sha256:" + b)[7..] == b;
    ToStringValue(generation);
    assert ToString(generation)[0] != '+';
  }

  /** What validation accepts, every agent accepts, at every u32 generation. */
  lemma AcceptedProfilesAreNeverRejected(profile: Profile, generation: nat, digest: CompiledConfig -> string)
    requires Validate(profile).Ok? && generation <= U32_MAX
    ensures AgentCheck(ConfigResponseFromCompiled(Compile(Validate(profile).value), generation, digest))
         == KernelConfigOf(profile, generation)
    ensures KernelConfigOf(profile, generation).Ok?
  {
    ValidateIff(profile);
    CompilesExactly(Effective(profile));
    GenerationText(generation);
  }

  lemma GenerationText(generation: nat)
    requires generation <= U32_MAX
    ensures ParseUnsigned(ToString(generation), U32_MAX) == Some(generation) && !IsBlank(ToString(generation))
  {
    ParseToString(generation, U32_MAX);
    ToStringValue(generation);
    assert ToString(generation)[0] in ToString(generation);
  }
}
