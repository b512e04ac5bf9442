/** Correlating block I/O issue and completion in the kernel over an evicting map. */
module StorageMonitor {
  import opened Decimal
  import opened KernelConfig
  import opened MachineInt


  datatype Op = Read | Write

  /** What a block tracepoint reports of a request. */
  datatype Request = Request(dev: nat, sector: nat, nrSector: nat, rwbs: char)

  datatype IoKey = IoKey(devMajor: nat, devMinor: nat, sector: nat, nrSector: nat, opcode: Op)

  datatype IoValue = IoValue(issueNs: nat, cgroupId: nat, bytes: nat, issuerPid: nat, opcode: Op, ambiguous: bool)

  datatype Severity = Warning | Critical

  datatype StorageEvent = StorageEvent(
    generation: nat, timestampNs: nat, latencyNs: nat, cgroupId: nat, sector: nat,
    devMajor: nat, devMinor: nat, bytes: nat, pid: nat, errorCode: int, opcode: Op, severity: Severity)

  /** Reads and writes are tracked; discards, flushes and the rest have no key. */
  function KeyOf(request: Request): Option<IoKey> {
    var major, minor := request.dev / 0x10_0000, request.dev % 0x10_0000;
    if request.rwbs == 'R' then Some(IoKey(major, minor, request.sector, request.nrSector, Read))
    else if request.rwbs == 'W' then Some(IoKey(major, minor, request.sector, request.nrSector, Write))
    else None
  }

  /** Severity of a completion, none when it is not worth an event. */
  function Judge(config: TapioConfig, errorCode: int, latencyNs: nat): Option<Severity> {
    if errorCode != 0 then Some(Critical)
    else if config.ioLatencyCriticalNs > 0 && latencyNs >= config.ioLatencyCriticalNs then Some(Critical)
    else if config.slowIoThresholdNs > 0 && latencyNs >= config.slowIoThresholdNs then Some(Warning)
    else None
  }

  // ----- the monitor as a state machine -----

  datatype Monitor = Monitor(
    config: TapioConfig, inflight: map<IoKey, IoValue>, lostEvents: nat, ambiguousIo: nat, events: seq<StorageEvent>)

  /** `id` names the physical request; no handler sees it. `room` and `slot` say
      whether the kernel found memory for a new entry or a ring-buffer record. */
  datatype Step =
    | Issue(id: nat, request: Request, nowNs: nat, cgroupId: nat, pid: nat, room: bool)
    | Complete(id: nat, request: Request, nowNs: nat, errorCode: int, slot: bool)
    | Evict(key: IoKey)
    | SetConfig(config: TapioConfig)

  /** What a step did to the entry of its key. */
  datatype Effect = Nothing | Inserted | Shared | Disabled | Ambiguous | Normal | Lost | Emitted | Evicted

  function NewValue(step: Step, key: IoKey): IoValue
    requires step.Issue?
  {
    IoValue(step.nowNs, step.cgroupId, key.nrSector * 512 % U32, step.pid, key.opcode, false)
  }

  function NewEvent(config: TapioConfig, key: IoKey, value: IoValue, step: Step, severity: Severity): StorageEvent
    requires step.Complete?
  {
    StorageEvent(config.generation, step.nowNs, (step.nowNs - value.issueNs) % U64, value.cgroupId, key.sector,
                 key.devMajor, key.devMinor, value.bytes, value.issuerPid, step.errorCode, value.opcode, severity)
  }

  function StepKey(step: Step): Option<IoKey> {
    match step
    case Issue(_, request, _, _, _, _) => KeyOf(request)
    case Complete(_, request, _, _, _) => KeyOf(request)
    case Evict(key) => Some(key)
    case SetConfig(_) => None
  }

  /** What a step does, from the state before it. */
  function EffectOf(m: Monitor, step: Step): Effect {
    match StepKey(step)
    case None => Nothing
    case Some(key) =>
      match step
      case SetConfig(_) => Nothing
      case Evict(_) => if key in m.inflight then Evicted else Nothing
      case Issue(_, _, _, _, _, room) =>
        if !Enabled(m.config, F_STORAGE) then Nothing
        else if key in m.inflight then Shared
        else if room then Inserted
        else Nothing
      case Complete(_, _, nowNs, errorCode, slot) =>
        if key !in m.inflight then Nothing
        else if !Enabled(m.config, F_STORAGE) then Disabled
        else if m.inflight[key].ambiguous then Ambiguous
        else if Judge(m.config, errorCode, (nowNs - m.inflight[key].issueNs) % U64) == None then Normal
        else if !slot then Lost
        else Emitted
  }

  function Apply(m: Monitor, step: Step): Monitor {
    match EffectOf(m, step)
    case Nothing => (match step case SetConfig(config) => m.(config := config) case _ => m)
    case Inserted => m.(inflight := m.inflight[StepKey(step).value := NewValue(step, StepKey(step).value)])
    case Shared =>
      var key := StepKey(step).value;
      m.(inflight := m.inflight[key := m.inflight[key].(ambiguous := true)])
    case Ambiguous => m.(inflight := m.inflight - {StepKey(step).value}, ambiguousIo := m.ambiguousIo + 1)
    case Lost => m.(inflight := m.inflight - {StepKey(step).value}, lostEvents := m.lostEvents + 1)
    case Emitted =>
      var key := StepKey(step).value;
      m.(inflight := m.inflight - {key}, events := m.events + [EventOf(m, step)])
    case _ => m.(inflight := m.inflight - {StepKey(step).value})
  }

  function EventOf(m: Monitor, step: Step): StorageEvent
    requires EffectOf(m, step) == Emitted
  {
    var key := StepKey(step).value;
    var value := m.inflight[key];
    NewEvent(m.config, key, value, step, Judge(m.config, step.errorCode, (step.nowNs - value.issueNs) % U64).value)
  }

  /** The two tracepoint handlers over the maps they update in place. */
  class Handlers {
    var config: TapioConfig
    var inflightIo: map<IoKey, IoValue>
    var lostEvents: nat
    var ambiguousIo: nat
    var events: seq<StorageEvent>

    ghost function View(): Monitor
      reads this
    {
      Monitor(config, inflightIo, lostEvents, ambiguousIo, events)
    }

    method TraceBlockRqIssue(ghost id: nat, request: Request, nowNs: nat, cgroupId: nat, pid: nat, room: bool)
      modifies this`inflightIo
      ensures View() == Apply(old(View()), Issue(id, request, nowNs, cgroupId, pid, room))
    {
      if !Enabled(config, F_STORAGE) {
        return;
      }
      var opcode;
      if request.rwbs == 'R' {
        opcode := Read;
      } else if request.rwbs == 'W' {
        opcode := Write;
      } else {
        return;
      }
      var key := IoKey(request.dev / 0x10_0000, request.dev % 0x10_0000, request.sector, request.nrSector, opcode);
      var value := IoValue(nowNs, cgroupId, request.nrSector * 512 % U32, pid, opcode, false);
      if key in inflightIo {
        inflightIo := inflightIo[key := inflightIo[key].(ambiguous := true)];
      } else if room {
        inflightIo := inflightIo[key := value];
      }
    }

    method TraceBlockRqComplete(ghost id: nat, request: Request, nowNs: nat, errorCode: int, slot: bool)
      modifies this`inflightIo, this`lostEvents, this`ambiguousIo, this`events
      ensures View() == Apply(old(View()), Complete(id, request, nowNs, errorCode, slot))
    {
      var opcode;
      if request.rwbs == 'R' {
        opcode := Read;
      } else if request.rwbs == 'W' {
        opcode := Write;
      } else {
        return;
      }
      var key := IoKey(request.dev / 0x10_0000, request.dev % 0x10_0000, request.sector, request.nrSector, opcode);
      if key !in inflightIo {
        return;
      }
      var value := inflightIo[key];
      if !Enabled(config, F_STORAGE) {
        inflightIo := inflightIo - {key};
        return;
      }
      if value.ambiguous {
        ambiguousIo := ambiguousIo + 1;
        inflightIo := inflightIo - {key};
        return;
      }
      var latencyNs := (nowNs - value.issueNs) % U64;
      var severity;
      if errorCode != 0 {
        severity := Critical;
      } else if config.ioLatencyCriticalNs > 0 && latencyNs >= config.ioLatencyCriticalNs {
        severity := Critical;
      } else if config.slowIoThresholdNs > 0 && latencyNs >= config.slowIoThresholdNs {
        severity := Warning;
      } else {
        inflightIo := inflightIo - {key};
        return;
      }
      if !slot {
        lostEvents := lostEvents + 1;
        inflightIo := inflightIo - {key};
        return;
      }
      events := events + [StorageEvent(config.generation, nowNs, latencyNs, value.cgroupId, key.sector, key.devMajor,
                                       key.devMinor, value.bytes, value.issuerPid, errorCode, value.opcode, severity)];
      inflightIo := inflightIo - {key};
    }
  }

  // ----- runs -----

  function Start(config: TapioConfig): Monitor { Monitor(config, map[], 0, 0, []) }

  function Run(config: TapioConfig, trace: seq<Step>): Monitor {
    if |trace| == 0 then Start(config)
    else Apply(Run(config, trace[..|trace| - 1]), trace[|trace| - 1])
  }

  function EffectAt(config: TapioConfig, trace: seq<Step>, i: nat): Effect
    requires i < |trace|
  {
    EffectOf(Run(config, trace[..i]), trace[i])
  }

  function ConfigAt(config: TapioConfig, trace: seq<Step>, i: nat): TapioConfig
    requires i <= |trace|
  {
    Run(config, trace[..i]).config
  }

  /** An issue the handler looks at: of this key, while storage is enabled. */
  predicate TrackedIssue(config: TapioConfig, trace: seq<Step>, i: nat, key: IoKey)
    requires i < |trace|
  {
    trace[i].Issue? && StepKey(trace[i]) == Some(key) && Enabled(ConfigAt(config, trace, i), F_STORAGE)
  }

  predicate Clears(step: Step, key: IoKey) {
    (step.Complete? || step.Evict?) && StepKey(step) == Some(key)
  }

  /** The issue that inserted the present entry of a key. */
  ghost function Owner(config: TapioConfig, trace: seq<Step>, key: IoKey): (j: Option<nat>)
    ensures j.Some? ==> j.value < |trace|
  {
    if |trace| == 0 then None
    else
      var n := |trace| - 1;
      if StepKey(trace[n]) == Some(key) && EffectAt(config, trace, n) == Inserted then Some(n)
      else if Clears(trace[n], key) then None
      else Owner(config, trace[..n], key)
  }

  /** Since the issue at `j`, no tracked issue, completion or eviction of the key. */
  ghost predicate Untouched(config: TapioConfig, trace: seq<Step>, key: IoKey, j: nat, p: nat)
    requires p <= |trace|
  {
    forall i | j < i < p :: !TrackedIssue(config, trace, i, key) && !Clears(trace[i], key)
  }

  ghost predicate SharedSince(config: TapioConfig, trace: seq<Step>, key: IoKey, j: nat) {
    exists i :: j < i < |trace| && TrackedIssue(config, trace, i, key)
  }

  lemma {:induction false} PrefixFacts(config: TapioConfig, trace: seq<Step>, n: nat)
    requires n <= |trace|
    ensures forall i: nat | i < n :: trace[..n][i] == trace[i] && trace[..n][..i] == trace[..i]
    ensures forall i: nat, key | i < n ::
              TrackedIssue(config, trace[..n], i, key) == TrackedIssue(config, trace, i, key)
    ensures forall i: nat | i < n :: EffectAt(config, trace[..n], i) == EffectAt(config, trace, i)
  {
    assert forall i: nat | i < n :: trace[..n][..i] == trace[..i];
  }

  lemma {:induction false} SharedStep(config: TapioConfig, trace: seq<Step>, key: IoKey, j: nat)
    requires |trace| > 0 && j < |trace| - 1
    ensures SharedSince(config, trace, key, j)
        <==> SharedSince(config, trace[..|trace| - 1], key, j) || TrackedIssue(config, trace, |trace| - 1, key)
  {
    var n := |trace| - 1;
    PrefixFacts(config, trace, n);
    if SharedSince(config, trace, key, j) && !TrackedIssue(config, trace, n, key) {
      var i :| j < i < |trace| && TrackedIssue(config, trace, i, key);
      assert TrackedIssue(config, trace[..n], i, key);
    }
    if SharedSince(config, trace[..n], key, j) {
      var i :| j < i < n && TrackedIssue(config, trace[..n], i, key);
      assert TrackedIssue(config, trace, i, key);
    }
  }

  /** What one step does to one key. */
  lemma {:induction false} EntryStep(m: Monitor, step: Step, key: IoKey)
    ensures var after := Apply(m, step).inflight;
            if StepKey(step) != Some(key) || EffectOf(m, step) == Nothing then
              (key in after <==> key in m.inflight) && (key in after ==> after[key] == m.inflight[key])
            else if EffectOf(m, step) == Inserted then
              step.Issue? && key !in m.inflight && key in after && after[key] == NewValue(step, key)
            else if EffectOf(m, step) == Shared then
              step.Issue? && key in m.inflight && key in after && after[key] == m.inflight[key].(ambiguous := true)
            else (step.Complete? || step.Evict?) && key in m.inflight && key !in after
  {
  }

  /** A present entry is the one its owner inserted. */
  ghost predicate HeldFor(config: TapioConfig, trace: seq<Step>, key: IoKey, j: nat)
    requires j < |trace|
  {
    var inflight := Run(config, trace).inflight;
    && trace[j].Issue? && StepKey(trace[j]) == Some(key) && EffectAt(config, trace, j) == Inserted
    && key in inflight && inflight[key].(ambiguous := false) == NewValue(trace[j], key)
    && (inflight[key].ambiguous <==> SharedSince(config, trace, key, j))
    && (forall i | j < i < |trace| :: !Clears(trace[i], key))
  }

  /** The map is a function of the history: a key is present exactly when some
      issue inserted it and nothing cleared it since, the entry holds that
      issue's values, and it is ambiguous exactly when another tracked issue of
      the key followed. */
  lemma {:induction false} MapIsHistory(config: TapioConfig, trace: seq<Step>, key: IoKey)
    ensures match Owner(config, trace, key)
            case None => key !in Run(config, trace).inflight
            case Some(j) => HeldFor(config, trace, key, j)
  {
    if |trace| > 0 {
      var n := |trace| - 1;
      MapIsHistory(config, trace[..n], key);
      PrefixFacts(config, trace, n);
      EntryStep(Run(config, trace[..n]), trace[n], key);
      var before := Owner(config, trace[..n], key);
      if Owner(config, trace, key) == Some(n) {
        assert !SharedSince(config, trace, key, n);
      } else if before.Some? {
        SharedStep(config, trace, key, before.value);
      }
    }
  }

  lemma {:induction false} OwnerSticks(config: TapioConfig, trace: seq<Step>, key: IoKey, j: nat)
    requires j < |trace| && StepKey(trace[j]) == Some(key) && EffectAt(config, trace, j) == Inserted
    requires forall i | j < i < |trace| :: !Clears(trace[i], key)
    requires !SharedSince(config, trace, key, j)
    ensures Owner(config, trace, key) == Some(j)
  {
    var n := |trace| - 1;
    if j < n {
      PrefixFacts(config, trace, n);
      SharedStep(config, trace, key, j);
      OwnerSticks(config, trace[..n], key, j);
      assert !TrackedIssue(config, trace, n, key);
    }
  }

  /** What makes a completion critical, slow, or neither. */
  predicate IsCritical(config: TapioConfig, errorCode: int, latencyNs: nat) {
    errorCode != 0 || (config.ioLatencyCriticalNs > 0 && latencyNs >= config.ioLatencyCriticalNs)
  }

  predicate IsSlow(config: TapioConfig, latencyNs: nat) {
    config.slowIoThresholdNs > 0 && latencyNs >= config.slowIoThresholdNs
  }

  /** The event tells of the completion at `p` of the request issued at `j`, field by
      field. */
  ghost predicate Tells(config: TapioConfig, trace: seq<Step>, event: StorageEvent, p: nat, j: nat) {
    && j < p < |trace| && trace[p].Complete? && trace[j].Issue?
    && (var request, issued, now := trace[p].request, trace[j].request, ConfigAt(config, trace, p);
        && issued.dev == request.dev && issued.sector == request.sector && issued.nrSector == request.nrSector
        && issued.rwbs == request.rwbs && (request.rwbs == 'R' || request.rwbs == 'W')
        && event.generation == now.generation
        && event.timestampNs == trace[p].nowNs
        && event.latencyNs == (trace[p].nowNs - trace[j].nowNs) % U64
        && event.cgroupId == trace[j].cgroupId && event.pid == trace[j].pid
        && event.devMajor == request.dev / 0x10_0000 && event.devMinor == request.dev % 0x10_0000
        && event.sector == request.sector && event.bytes == request.nrSector * 512 % U32
        && event.errorCode == trace[p].errorCode
        && event.opcode == (if request.rwbs == 'R' then Read else Write)
        && event.severity == (if IsCritical(now, trace[p].errorCode, event.latencyNs) then Critical else Warning)
        && (event.severity == Warning ==> IsSlow(now, event.latencyNs)))
  }

  /** Two requests share a key exactly when they are both reads or both writes of the
      same sectors of the same device. */
  lemma {:induction false} KeyIdentifies(a: Request, b: Request)
    ensures KeyOf(a).Some? <==> a.rwbs == 'R' || a.rwbs == 'W'
    ensures KeyOf(a).Some? ==>
              (KeyOf(a) == KeyOf(b) <==>
                 a.dev == b.dev && a.sector == b.sector && a.nrSector == b.nrSector && a.rwbs == b.rwbs)
  {
    assert a.dev == (a.dev / 0x10_0000) * 0x10_0000 + a.dev % 0x10_0000;
    assert b.dev == (b.dev / 0x10_0000) * 0x10_0000 + b.dev % 0x10_0000;
  }

  /** A completion emits an event exactly when it finds a ring slot with storage
      enabled and there is an earlier inserting issue of its key, untouched by any
      tracked issue, completion or eviction since, and the completion is critical or
      slow; the event then tells of this completion and that issue. */
  lemma {:induction false} EmissionIff(config: TapioConfig, trace: seq<Step>, p: nat)
    requires p < |trace| && trace[p].Complete?
    ensures EffectAt(config, trace, p) == Emitted <==> exists j: nat :: EmitsFor(config, trace, p, j)
    ensures forall j: nat | EmitsFor(config, trace, p, j) ::
              EffectAt(config, trace, p) == Emitted
              && Tells(config, trace, EventOf(Run(config, trace[..p]), trace[p]), p, j)
  {
    PrefixFacts(config, trace, p);
    if StepKey(trace[p]).Some? {
      var key := StepKey(trace[p]).value;
      MapIsHistory(config, trace[..p], key);
      if EffectAt(config, trace, p) == Emitted {
        var j := Owner(config, trace[..p], key).value;
        assert EmitsFor(config, trace, p, j);
      }
      forall j: nat | EmitsFor(config, trace, p, j)
        ensures EffectAt(config, trace, p) == Emitted
        ensures Tells(config, trace, EventOf(Run(config, trace[..p]), trace[p]), p, j)
      {
        EmitterTells(config, trace, p, j);
      }
    }
  }

  lemma {:induction false} EmitterTells(config: TapioConfig, trace: seq<Step>, p: nat, j: nat)
    requires p < |trace| && trace[p].Complete? && EmitsFor(config, trace, p, j)
    ensures EffectAt(config, trace, p) == Emitted
    ensures Tells(config, trace, EventOf(Run(config, trace[..p]), trace[p]), p, j)
  {
    var key := StepKey(trace[p]).value;
    PrefixFacts(config, trace, p);
    MapIsHistory(config, trace[..p], key);
    OwnerSticks(config, trace[..p], key, j);
    KeyIdentifies(trace[p].request, trace[j].request);
    EventTells(Run(config, trace[..p]), trace[p], trace[j]);
  }

  /** The fields of an emitted event, given the issue behind its entry. */
  lemma {:induction false} EventTells(m: Monitor, step: Step, issue: Step)
    requires step.Complete? && EffectOf(m, step) == Emitted && issue.Issue?
    requires m.inflight[StepKey(step).value].(ambiguous := false) == NewValue(issue, StepKey(step).value)
    ensures var event, request := EventOf(m, step), step.request;
            && event.generation == m.config.generation && event.timestampNs == step.nowNs
            && event.latencyNs == (step.nowNs - issue.nowNs) % U64
            && event.cgroupId == issue.cgroupId && event.pid == issue.pid
            && event.devMajor == request.dev / 0x10_0000 && event.devMinor == request.dev % 0x10_0000
            && event.sector == request.sector && event.bytes == request.nrSector * 512 % U32
            && event.errorCode == step.errorCode
            && event.opcode == (if request.rwbs == 'R' then Read else Write)
            && event.severity == (if IsCritical(m.config, step.errorCode, event.latencyNs) then Critical else Warning)
            && (event.severity == Warning ==> IsSlow(m.config, event.latencyNs))
  {
  }

  ghost predicate EmitsFor(config: TapioConfig, trace: seq<Step>, p: nat, j: nat)
    requires p < |trace| && trace[p].Complete?
  {
    var now := ConfigAt(config, trace, p);
    && j < p && StepKey(trace[p]).Some? && trace[j].Issue? && StepKey(trace[j]) == StepKey(trace[p])
    && trace[p].slot && Enabled(now, F_STORAGE)
    && EffectAt(config, trace, j) == Inserted
    && Untouched(config, trace, StepKey(trace[p]).value, j, p)
    && (var latencyNs := (trace[p].nowNs - trace[j].nowNs) % U64;
        IsCritical(now, trace[p].errorCode, latencyNs) || IsSlow(now, latencyNs))
  }

  // ----- conservation -----

  function Count(config: TapioConfig, trace: seq<Step>, effect: Effect): nat {
    if |trace| == 0 then 0
    else Count(config, trace[..|trace| - 1], effect)
         + (if EffectAt(config, trace, |trace| - 1) == effect then 1 else 0)
  }

  /** Every inserted entry leaves by exactly one door or is still in the map. */
  lemma {:induction false} EntriesConserved(config: TapioConfig, trace: seq<Step>)
    ensures Count(config, trace, Inserted)
         == Count(config, trace, Emitted) + Count(config, trace, Normal) + Count(config, trace, Ambiguous)
            + Count(config, trace, Disabled) + Count(config, trace, Lost) + Count(config, trace, Evicted)
            + |Run(config, trace).inflight|
  {
    if |trace| > 0 {
      EntriesConserved(config, trace[..|trace| - 1]);
      StepBalance(Run(config, trace[..|trace| - 1]), trace[|trace| - 1]);
    }
  }

  /** The metrics and the ring hold exactly the lost, the ambiguous and the
      emitted completions. */
  lemma {:induction false} MetricsConserved(config: TapioConfig, trace: seq<Step>)
    ensures var m := Run(config, trace);
            && m.lostEvents == Count(config, trace, Lost)
            && m.ambiguousIo == Count(config, trace, Ambiguous)
            && |m.events| == Count(config, trace, Emitted)
  {
    if |trace| > 0 { MetricsConserved(config, trace[..|trace| - 1]); }
  }

  lemma {:induction false} StepBalance(m: Monitor, step: Step)
    ensures var effect := EffectOf(m, step);
            |Apply(m, step).inflight| - |m.inflight|
            == (match effect case Inserted => 1 case Nothing => 0 case Shared => 0 case _ => -1)
  {
    if StepKey(step).Some? {
      var key := StepKey(step).value;
      RemoveOne(m.inflight, key);
    }
  }

  lemma {:induction false} RemoveOne(m: map<IoKey, IoValue>, key: IoKey)
    ensures |m - {key}| == if key in m then |m| - 1 else |m|
  {
    assert (m - {key}).Keys == m.Keys - {key};
    assert |m.Keys| == |m| && |(m - {key}).Keys| == |m - {key}|;
  }
}
