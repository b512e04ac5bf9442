/** Operator profiles: validation against the built-in base and compilation to the
    wire config. */
module EvidenceProfile {
  import opened Decimal
  import opened MachineInt

  const API_VERSION := "tapio.false.systems/v0"
  const KIND := "EvidenceProfile"
  const PRODUCTION_DEFAULT := "production-default"
  const MAX_RTT_ABS_MS: nat := 600_000
  const MAX_WARNING_MS: nat := 60_000
  const MAX_CRITICAL_MS: nat := 600_000
  const MAX_IGNORE_EXIT_CODES: nat := 16

  /** An f64 up to rounding: a real, or one of NaN and the infinities. */
  datatype Float = Finite(value: real) | NotFinite

  datatype NetworkOverride = NetworkOverride(enabled: Option<bool>, ratio: Option<nat>, absMs: Option<nat>)
  datatype StorageOverride = StorageOverride(enabled: Option<bool>, warningMs: Option<nat>, criticalMs: Option<nat>)
  datatype ContainerOverride = ContainerOverride(enabled: Option<bool>, ignoreExitCodes: Option<seq<int>>)
  datatype NodePmcOverride = NodePmcOverride(
    enabled: Option<bool>, stallWarning: Option<Float>, stallCritical: Option<Float>, ipcDegradation: Option<Float>)

  datatype Profile = Profile(
    apiVersion: Option<string>, kind: Option<string>, base: Option<string>,
    network: NetworkOverride, storage: StorageOverride, container: ContainerOverride, nodePmc: NodePmcOverride)

  datatype ResolvedNetwork = ResolvedNetwork(
    enabled: bool, ratio: nat, absMs: nat, minBaselineSamples: nat, connRefusedWindowNs: nat, connRefusedMinCount: nat)
  datatype ResolvedStorage = ResolvedStorage(enabled: bool, warningMs: nat, criticalMs: nat)
  datatype ResolvedContainer = ResolvedContainer(enabled: bool, ignoreExitCodes: seq<int>)
  datatype ResolvedNodePmc = ResolvedNodePmc(
    enabled: bool, stallWarning: real, stallCritical: real, ipcDegradation: real)

  datatype Resolved = Resolved(
    network: ResolvedNetwork, storage: ResolvedStorage, container: ResolvedContainer, nodePmc: ResolvedNodePmc)

  datatype ProfileError =
    | UnsupportedApiVersion
    | UnsupportedKind
    | MissingBase
    | InvalidProfileName(name: string)
    | UnknownBase(name: string)
    | OutOfRange(path: string)
    | NotFiniteValue(path: string)
    | ThresholdOrder(path: string)
    | TooManyIgnoreExitCodes(count: nat)

  datatype Result<+T, +E> = Ok(value: T) | Err(error: E) {
    predicate IsFailure() { Err? }

    function PropagateFailure<U>(): Result<U, E>
      requires Err?
    {
      Err(error)
    }

    function Extract(): T
      requires Ok?
    {
      value
    }
  }

  function Default(): Resolved {
    Resolved(ResolvedNetwork(true, 2, 500, 5, 0, 0), ResolvedStorage(true, 50, 200),
             ResolvedContainer(true, []), ResolvedNodePmc(true, 20.0, 40.0, 1.0))
  }

  function Or<T>(o: Option<T>, d: T): T { if o.Some? then o.value else d }

  // ----- validation, in the source's order -----

  predicate IsLower(c: char) { 'a' <= c <= 'z' }

  predicate ValidProfileName(name: string) {
    0 < |name| <= 63 && IsLower(name[0]) && name[|name| - 1] != '-'
    && forall i | 1 <= i < |name| :: IsLower(name[i]) || IsDigit(name[i]) || name[i] == '-'
  }

  function InRange(v: Option<nat>, max: nat, path: string): Result<(), ProfileError> {
    if v.Some? && !(1 <= v.value <= max) then Err(OutOfRange(path)) else Ok(())
  }

  function FiniteInRange(v: Option<Float>, max: real, path: string): Result<(), ProfileError> {
    match v
    case None => Ok(())
    case Some(NotFinite) => Err(NotFiniteValue(path))
    case Some(Finite(x)) => if x < 0.0 || x > max then Err(OutOfRange(path)) else Ok(())
  }

  function Real(v: Option<Float>, d: real): real { if v.Some? && v.value.Finite? then v.value.value else d }

  function ApplyNetwork(input: NetworkOverride, base: ResolvedNetwork): Result<ResolvedNetwork, ProfileError> {
    var _ :- InRange(input.ratio, 100, "overrides.network.rtt_spike.ratio");
    var _ :- InRange(input.absMs, MAX_RTT_ABS_MS, "overrides.network.rtt_spike.abs_ms");
    Ok(base.(enabled := Or(input.enabled, base.enabled), ratio := Or(input.ratio, base.ratio),
             absMs := Or(input.absMs, base.absMs)))
  }

  function ApplyStorage(input: StorageOverride, base: ResolvedStorage): Result<ResolvedStorage, ProfileError> {
    var _ :- InRange(input.warningMs, MAX_WARNING_MS, "overrides.storage.slow_io.warning_ms");
    var _ :- InRange(input.criticalMs, MAX_CRITICAL_MS, "overrides.storage.slow_io.critical_ms");
    var resolved := ResolvedStorage(Or(input.enabled, base.enabled), Or(input.warningMs, base.warningMs),
                                    Or(input.criticalMs, base.criticalMs));
    if resolved.criticalMs < resolved.warningMs then Err(ThresholdOrder("overrides.storage.slow_io"))
    else Ok(resolved)
  }

  predicate IsExitCode(code: int) { 0 <= code <= 255 }

  /** The codes in order of first mention. */
  function Distinct(codes: seq<int>): (d: seq<int>)
    ensures forall c :: c in d <==> c in codes
    ensures |d| <= |codes|
  {
    if |codes| == 0 then []
    else
      var before, last := codes[..|codes| - 1], codes[|codes| - 1];
      assert codes == before + [last];
      if last in before then Distinct(before) else Distinct(before) + [last]
  }

  function ApplyContainer(input: ContainerOverride, base: ResolvedContainer): Result<ResolvedContainer, ProfileError> {
    var enabled := Or(input.enabled, base.enabled);
    match input.ignoreExitCodes
    case None => Ok(base.(enabled := enabled))
    case Some(codes) =>
      if |codes| > MAX_IGNORE_EXIT_CODES then Err(TooManyIgnoreExitCodes(|codes|))
      else if exists c | c in codes :: !IsExitCode(c) then Err(OutOfRange("overrides.container.ignore_exit_codes"))
      else Ok(ResolvedContainer(enabled, Distinct(codes)))
  }

  /** The source's loop over the codes with its table of seen ones. */
  method ApplyContainerInPlace(input: ContainerOverride, base: ResolvedContainer)
    returns (r: Result<ResolvedContainer, ProfileError>)
    ensures r == ApplyContainer(input, base)
  {
    var resolved := base;
    if input.enabled.Some? {
      resolved := resolved.(enabled := input.enabled.value);
    }
    if input.ignoreExitCodes.Some? {
      var codes := input.ignoreExitCodes.value;
      if |codes| > MAX_IGNORE_EXIT_CODES {
        return Err(TooManyIgnoreExitCodes(|codes|));
      }
      var checked: seq<int> := [];
      var seen := new bool[256](_ => false);
      for i := 0 to |codes|
        invariant forall k | 0 <= k < i :: IsExitCode(codes[k])
        invariant checked == Distinct(codes[..i])
        invariant forall c | 0 <= c < 256 :: seen[c] <==> c in checked
      {
        var code := codes[i];
        if !IsExitCode(code) {
          assert code in codes;
          return Err(OutOfRange("overrides.container.ignore_exit_codes"));
        }
        assert codes[..i + 1][..i] == codes[..i];
        if !seen[code] {
          seen[code] := true;
          checked := checked + [code];
        }
      }
      assert codes[..|codes|] == codes;
      resolved := resolved.(ignoreExitCodes := checked);
    }
    return Ok(resolved);
  }

  function ApplyNodePmc(input: NodePmcOverride, base: ResolvedNodePmc): Result<ResolvedNodePmc, ProfileError> {
    var _ :- FiniteInRange(input.stallWarning, 100.0, "overrides.node_pmc.stall_pct.warning");
    var _ :- FiniteInRange(input.stallCritical, 100.0, "overrides.node_pmc.stall_pct.critical");
    var warning, critical := Real(input.stallWarning, base.stallWarning), Real(input.stallCritical, base.stallCritical);
    if critical < warning then Err(ThresholdOrder("overrides.node_pmc.stall_pct"))
    else
      var _ :- FiniteInRange(input.ipcDegradation, 16.0, "overrides.node_pmc.ipc_degradation");
      Ok(ResolvedNodePmc(Or(input.enabled, base.enabled), warning, critical,
                         Real(input.ipcDegradation, base.ipcDegradation)))
  }

  function Validate(profile: Profile): Result<Resolved, ProfileError> {
    if profile.apiVersion != Some(API_VERSION) then Err(UnsupportedApiVersion)
    else if profile.kind != Some(KIND) then Err(UnsupportedKind)
    else match profile.base
         case None => Err(MissingBase)
         case Some(name) =>
           if !ValidProfileName(name) then Err(InvalidProfileName(name))
           else if name != PRODUCTION_DEFAULT then Err(UnknownBase(name))
           else
             var base := Default();
             var network :- ApplyNetwork(profile.network, base.network);
             var storage :- ApplyStorage(profile.storage, base.storage);
             var container :- ApplyContainer(profile.container, base.container);
             var nodePmc :- ApplyNodePmc(profile.nodePmc, base.nodePmc);
             Ok(Resolved(network, storage, container, nodePmc))
  }

  // ----- what a profile means, independent of the order of checks -----

  /** The settings an operator gets: each override, or else the default. */
  function Effective(profile: Profile): Resolved {
    Resolved(
      ResolvedNetwork(Or(profile.network.enabled, true), Or(profile.network.ratio, 2), Or(profile.network.absMs, 500),
                      5, 0, 0),
      ResolvedStorage(Or(profile.storage.enabled, true), Or(profile.storage.warningMs, 50),
                      Or(profile.storage.criticalMs, 200)),
      ResolvedContainer(Or(profile.container.enabled, true), Distinct(Or(profile.container.ignoreExitCodes, []))),
      ResolvedNodePmc(Or(profile.nodePmc.enabled, true), Real(profile.nodePmc.stallWarning, 20.0),
                      Real(profile.nodePmc.stallCritical, 40.0), Real(profile.nodePmc.ipcDegradation, 1.0)))
  }

  /** Settings in range, with each warning at most its critical threshold. */
  predicate InBounds(r: Resolved) {
    && 1 <= r.network.ratio <= 100 && 1 <= r.network.absMs <= 600_000
    && r.network.minBaselineSamples == 5
    && 1 <= r.storage.warningMs <= 60_000 && r.storage.warningMs <= r.storage.criticalMs <= 600_000
    && (forall c | c in r.container.ignoreExitCodes :: IsExitCode(c))
    && 0.0 <= r.nodePmc.stallWarning <= r.nodePmc.stallCritical <= 100.0 && 0.0 <= r.nodePmc.ipcDegradation <= 16.0
  }

  predicate FiniteIfGiven(v: Option<Float>) { v.Some? ==> v.value.Finite? }

  predicate Acceptable(profile: Profile) {
    && profile.apiVersion == Some("tapio.false.systems/v0") && profile.kind == Some("EvidenceProfile")
    && profile.base == Some("production-default")
    && InBounds(Effective(profile))
    && |Or(profile.container.ignoreExitCodes, [])| <= 16
    && FiniteIfGiven(profile.nodePmc.stallWarning) && FiniteIfGiven(profile.nodePmc.stallCritical)
    && FiniteIfGiven(profile.nodePmc.ipcDegradation)
  }

  /** Validation accepts exactly the acceptable profiles and resolves them to
      their effective settings. */
  lemma {:induction false} ValidateIff(profile: Profile)
    ensures Validate(profile).Ok? <==> Acceptable(profile)
    ensures Validate(profile).Ok? ==> Validate(profile).value == Effective(profile)
  {
    DefaultNameIsValid();
    ApplyNetworkAccepts(profile.network);
    ApplyStorageAccepts(profile.storage);
    ApplyContainerAccepts(profile.container);
    ApplyNodePmcAccepts(profile.nodePmc);
  }

  lemma {:induction false} ApplyNetworkAccepts(input: NetworkOverride)
    ensures var r := ApplyNetwork(input, Default().network);
            && (r.Ok? <==> 1 <= Or(input.ratio, 2) <= 100 && 1 <= Or(input.absMs, 500) <= MAX_RTT_ABS_MS)
            && (r.Ok? ==> r.value == Default().network.(enabled := Or(input.enabled, true), ratio := Or(input.ratio, 2),
                                                        absMs := Or(input.absMs, 500)))
  {
  }

  lemma {:induction false} ApplyStorageAccepts(input: StorageOverride)
    ensures var r := ApplyStorage(input, Default().storage);
            var warning, critical := Or(input.warningMs, 50), Or(input.criticalMs, 200);
            && (r.Ok? <==> 1 <= warning <= MAX_WARNING_MS && warning <= critical <= MAX_CRITICAL_MS)
            && (r.Ok? ==> r.value == ResolvedStorage(Or(input.enabled, true), warning, critical))
  {
  }

  lemma DefaultNameIsValid()
    ensures ValidProfileName(PRODUCTION_DEFAULT)
  {
  }

  lemma {:induction false} ApplyContainerAccepts(input: ContainerOverride)
    ensures var codes := Or(input.ignoreExitCodes, []);
            ApplyContainer(input, Default().container)
            == if |codes| > MAX_IGNORE_EXIT_CODES then Err(TooManyIgnoreExitCodes(|codes|))
               else if forall c | c in Distinct(codes) :: IsExitCode(c)
                    then Ok(ResolvedContainer(Or(input.enabled, true), Distinct(codes)))
                    else Err(OutOfRange("overrides.container.ignore_exit_codes"))
  {
  }

  lemma {:induction false} ApplyNodePmcAccepts(input: NodePmcOverride)
    ensures var r := ApplyNodePmc(input, Default().nodePmc);
            var warning, critical := Real(input.stallWarning, 20.0), Real(input.stallCritical, 40.0);
            var ipc := Real(input.ipcDegradation, 1.0);
            && (r.Ok? <==>
                  && FiniteIfGiven(input.stallWarning) && FiniteIfGiven(input.stallCritical)
                  && FiniteIfGiven(input.ipcDegradation)
                  && 0.0 <= warning <= critical <= 100.0 && 0.0 <= ipc <= 16.0)
            && (r.Ok? ==> r.value == ResolvedNodePmc(Or(input.enabled, true), warning, critical, ipc))
  {
  }

  /** Where a code is first mentioned. */
  ghost function FirstAt(codes: seq<int>, code: int): (i: nat)
    requires code in codes
    ensures i < |codes| && codes[i] == code && forall k | 0 <= k < i :: codes[k] != code
  {
    var before, last := codes[..|codes| - 1], codes[|codes| - 1];
    if code in before then FirstAt(before, code)
    else
      assert codes == before + [last];
      |codes| - 1
  }

  /** Deduplication keeps each code once, in the order of first mention. */
  lemma {:induction false} DistinctInOrder(codes: seq<int>, i: nat, j: nat)
    requires i < j < |Distinct(codes)|
    ensures Distinct(codes)[i] in codes && Distinct(codes)[j] in codes
    ensures FirstAt(codes, Distinct(codes)[i]) < FirstAt(codes, Distinct(codes)[j])
  {
    var n := |codes| - 1;
    var before, last := codes[..n], codes[n];
    assert codes == before + [last];
    if j < |Distinct(before)| {
      DistinctInOrder(before, i, j);
    }
    assert Distinct(codes)[i] in before;
  }

  predicate GivenWithin(v: Option<nat>, most: nat) { v.Some? ==> 1 <= v.value <= most }

  predicate GivenReal(v: Option<Float>, most: real) { v.Some? && v.value.Finite? ==> 0.0 <= v.value.value <= most }

  /** Why a profile is rejected: the first rule it breaks, in the order in which an
      operator reads the profile. */
  function RejectedFor(profile: Profile): Option<ProfileError> {
    var e, codes, pmc := Effective(profile), Or(profile.container.ignoreExitCodes, []), profile.nodePmc;
    if profile.apiVersion != Some("tapio.false.systems/v0") then Some(UnsupportedApiVersion)
    else if profile.kind != Some("EvidenceProfile") then Some(UnsupportedKind)
    else if profile.base == None then Some(MissingBase)
    else if !ValidProfileName(profile.base.value) then Some(InvalidProfileName(profile.base.value))
    else if profile.base.value != "production-default" then Some(UnknownBase(profile.base.value))
    else if !GivenWithin(profile.network.ratio, 100) then Some(OutOfRange("overrides.network.rtt_spike.ratio"))
    else if !GivenWithin(profile.network.absMs, 600_000) then Some(OutOfRange("overrides.network.rtt_spike.abs_ms"))
    else if !GivenWithin(profile.storage.warningMs, 60_000) then
      Some(OutOfRange("overrides.storage.slow_io.warning_ms"))
    else if !GivenWithin(profile.storage.criticalMs, 600_000) then
      Some(OutOfRange("overrides.storage.slow_io.critical_ms"))
    else if e.storage.criticalMs < e.storage.warningMs then Some(ThresholdOrder("overrides.storage.slow_io"))
    else if |codes| > 16 then Some(TooManyIgnoreExitCodes(|codes|))
    else if exists c | c in codes :: !(0 <= c <= 255) then Some(OutOfRange("overrides.container.ignore_exit_codes"))
    else if !FiniteIfGiven(pmc.stallWarning) then Some(NotFiniteValue("overrides.node_pmc.stall_pct.warning"))
    else if !GivenReal(pmc.stallWarning, 100.0) then Some(OutOfRange("overrides.node_pmc.stall_pct.warning"))
    else if !FiniteIfGiven(pmc.stallCritical) then Some(NotFiniteValue("overrides.node_pmc.stall_pct.critical"))
    else if !GivenReal(pmc.stallCritical, 100.0) then Some(OutOfRange("overrides.node_pmc.stall_pct.critical"))
    else if e.nodePmc.stallCritical < e.nodePmc.stallWarning then Some(ThresholdOrder("overrides.node_pmc.stall_pct"))
    else if !FiniteIfGiven(pmc.ipcDegradation) then Some(NotFiniteValue("overrides.node_pmc.ipc_degradation"))
    else if !GivenReal(pmc.ipcDegradation, 16.0) then Some(OutOfRange("overrides.node_pmc.ipc_degradation"))
    else None
  }

  lemma {:induction false} NetworkErrors(input: NetworkOverride)
    ensures var r := ApplyNetwork(input, Default().network);
            r.Err? ==> r.error == if !GivenWithin(input.ratio, 100) then OutOfRange("overrides.network.rtt_spike.ratio")
                                  else OutOfRange("overrides.network.rtt_spike.abs_ms")
    ensures ApplyNetwork(input, Default().network).Ok?
       <==> GivenWithin(input.ratio, 100) && GivenWithin(input.absMs, 600_000)
  {
  }

  lemma {:induction false} StorageErrors(input: StorageOverride)
    ensures var r := ApplyStorage(input, Default().storage);
            var ordered := Or(input.warningMs, 50) <= Or(input.criticalMs, 200);
            && (r.Ok? <==> GivenWithin(input.warningMs, 60_000) && GivenWithin(input.criticalMs, 600_000) && ordered)
            && (r.Ok?
                || r.error ==
                if !GivenWithin(input.warningMs, 60_000) then OutOfRange("overrides.storage.slow_io.warning_ms")
                else if !GivenWithin(input.criticalMs, 600_000) then OutOfRange("overrides.storage.slow_io.critical_ms")
                else ThresholdOrder("overrides.storage.slow_io"))
  {
  }

  lemma {:induction false} PmcErrors(input: NodePmcOverride)
    ensures var r := ApplyNodePmc(input, Default().nodePmc);
            var ordered := Real(input.stallWarning, 20.0) <= Real(input.stallCritical, 40.0);
            && (r.Ok? <==>
                  && FiniteIfGiven(input.stallWarning) && GivenReal(input.stallWarning, 100.0)
                  && FiniteIfGiven(input.stallCritical) && GivenReal(input.stallCritical, 100.0)
                  && ordered && FiniteIfGiven(input.ipcDegradation) && GivenReal(input.ipcDegradation, 16.0))
            && (r.Ok?
                || r.error ==
                if !FiniteIfGiven(input.stallWarning) then NotFiniteValue("overrides.node_pmc.stall_pct.warning")
                else if !GivenReal(input.stallWarning, 100.0) then OutOfRange("overrides.node_pmc.stall_pct.warning")
                else if !FiniteIfGiven(input.stallCritical) then NotFiniteValue("overrides.node_pmc.stall_pct.critical")
                else if !GivenReal(input.stallCritical, 100.0) then OutOfRange("overrides.node_pmc.stall_pct.critical")
                else if !ordered then ThresholdOrder("overrides.node_pmc.stall_pct")
                else if !FiniteIfGiven(input.ipcDegradation) then NotFiniteValue("overrides.node_pmc.ipc_degradation")
                else OutOfRange("overrides.node_pmc.ipc_degradation"))
  {
  }

  /** Validation rejects exactly the profiles that break a rule, for the first one. */
  lemma {:induction false} ValidateErrors(profile: Profile)
    ensures match RejectedFor(profile)
            case None => Validate(profile) == Ok(Effective(profile))
            case Some(error) => Validate(profile) == Err(error)
  {
    ValidateIff(profile);
    NetworkErrors(profile.network);
    StorageErrors(profile.storage);
    ApplyContainerAccepts(profile.container);
    PmcErrors(profile.nodePmc);
    CodesAlike(Or(profile.container.ignoreExitCodes, []));
  }

  lemma {:induction false} CodesAlike(codes: seq<int>)
    ensures (exists c | c in codes :: !(0 <= c <= 255)) <==> !forall c | c in Distinct(codes) :: IsExitCode(c)
  {
    if c :| c in codes && !(0 <= c <= 255) {
      assert c in Distinct(codes) && !IsExitCode(c);
    } else {
      forall c | c in Distinct(codes) ensures IsExitCode(c) { assert c in codes; }
    }
  }

  // ----- compilation -----

  datatype CompiledNetwork = CompiledNetwork(
    enabled: bool, rttSpikeRatio: nat, rttSpikeAbsUs: nat, rttMinBaselineSamples: nat,
    connRefusedWindowNs: nat, connRefusedMinCount: nat)
  datatype CompiledStorage = CompiledStorage(enabled: bool, slowIoWarningNs: nat, slowIoCriticalNs: nat)
  datatype CompiledContainer = CompiledContainer(enabled: bool, ignoreExitCodes: seq<int>)
  datatype CompiledNodePmc = CompiledNodePmc(
    enabled: bool, stallWarningPermille: nat, stallCriticalPermille: nat, ipcDegradationMilli: nat)
  datatype CompiledConfig = CompiledConfig(
    network: CompiledNetwork, storage: CompiledStorage, container: CompiledContainer, nodePmc: CompiledNodePmc)

  /** `x.round() as u32`: halves away from zero, saturating at both ends. */
  function RoundToU32(x: real): (n: nat) {
    if x < 0.0 then 0
    else
      var rounded := (x + 0.5).Floor;
      if rounded >= U32 then U32 - 1 else rounded
  }

  function Compile(r: Resolved): CompiledConfig {
    CompiledConfig(
      CompiledNetwork(r.network.enabled, r.network.ratio, r.network.absMs * 1_000 % U32, r.network.minBaselineSamples,
                      r.network.connRefusedWindowNs, r.network.connRefusedMinCount),
      CompiledStorage(r.storage.enabled, r.storage.warningMs * 1_000_000 % U64, r.storage.criticalMs * 1_000_000 % U64),
      CompiledContainer(r.container.enabled, r.container.ignoreExitCodes),
      CompiledNodePmc(r.nodePmc.enabled, RoundToU32(r.nodePmc.stallWarning * 10.0),
                      RoundToU32(r.nodePmc.stallCritical * 10.0), RoundToU32(r.nodePmc.ipcDegradation * 1000.0)))
  }

  lemma {:induction false} RoundIsNearest(x: real)
    requires 0.0 <= x <= 1_000_000.0
    ensures x - 0.5 < RoundToU32(x) as real <= x + 0.5
  {
  }

  /** Settings in bounds compile without overflow, each unit conversion exact or
      to the nearest unit, and warnings stay at most their critical thresholds. */
  lemma {:induction false} CompilesExactly(r: Resolved)
    requires InBounds(r)
    ensures var c := Compile(r);
            && c.network.rttSpikeAbsUs == r.network.absMs * 1_000 < U32
            && c.storage.slowIoWarningNs == r.storage.warningMs * 1_000_000
            && c.storage.slowIoCriticalNs == r.storage.criticalMs * 1_000_000 < U64
            && 0 < c.storage.slowIoWarningNs <= c.storage.slowIoCriticalNs
            && c.nodePmc.stallWarningPermille <= c.nodePmc.stallCriticalPermille <= 1_000
            && c.nodePmc.ipcDegradationMilli <= 16_000
    ensures var c := Compile(r);
            && c.network.rttSpikeRatio == r.network.ratio
            && c.network.rttMinBaselineSamples == r.network.minBaselineSamples
            && c.network.connRefusedWindowNs == r.network.connRefusedWindowNs
            && c.network.connRefusedMinCount == r.network.connRefusedMinCount
            && c.container.ignoreExitCodes == r.container.ignoreExitCodes
            && c.network.enabled == r.network.enabled && c.storage.enabled == r.storage.enabled
            && c.container.enabled == r.container.enabled && c.nodePmc.enabled == r.nodePmc.enabled
    ensures var c := Compile(r);
            && -0.5 < c.nodePmc.stallWarningPermille as real - r.nodePmc.stallWarning * 10.0 <= 0.5
            && -0.5 < c.nodePmc.stallCriticalPermille as real - r.nodePmc.stallCritical * 10.0 <= 0.5
            && -0.5 < c.nodePmc.ipcDegradationMilli as real - r.nodePmc.ipcDegradation * 1000.0 <= 0.5
  {
    RoundIsNearest(r.nodePmc.stallWarning * 10.0);
    RoundIsNearest(r.nodePmc.stallCritical * 10.0);
    RoundIsNearest(r.nodePmc.ipcDegradation * 1000.0);
  }
}
