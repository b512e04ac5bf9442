/** What the storage handlers leave behind on a whole run: which entries are present,
    what becomes of every completion, and what every emitted event says. */
module StorageEvents {
  import opened Decimal
  import opened KernelConfig
  import opened MachineInt
  import opened StorageMonitor

  /** An issue that would insert if it found no entry, and nothing cleared it since. */
  ghost predicate Standing(config: TapioConfig, trace: seq<Step>, key: IoKey, j: nat) {
    && j < |trace| && TrackedIssue(config, trace, j, key) && trace[j].room
    && forall i | j < i < |trace| :: !Clears(trace[i], key)
  }

  lemma {:induction false} StandingStep(config: TapioConfig, trace: seq<Step>, key: IoKey, j: nat)
    requires |trace| > 0
    ensures var n := |trace| - 1;
            Standing(config, trace, key, j) <==>
              if j == n then TrackedIssue(config, trace, n, key) && trace[n].room
              else j < n && Standing(config, trace[..n], key, j) && !Clears(trace[n], key)
  {
    var n := |trace| - 1;
    PrefixFacts(config, trace, n);
    if j < n && Standing(config, trace[..n], key, j) && !Clears(trace[n], key) {
      forall i | j < i < |trace| ensures !Clears(trace[i], key) {
        if i < n { assert trace[..n][i] == trace[i]; }
      }
    }
    if j < n && Standing(config, trace, key, j) {
      forall i | j < i < n ensures !Clears(trace[..n][i], key) { assert trace[..n][i] == trace[i]; }
    }
  }

  /** A key has an entry exactly when some tracked issue of it found memory and no
      completion or eviction of it followed. */
  lemma {:induction false} PresentIff(config: TapioConfig, trace: seq<Step>, key: IoKey)
    ensures key in Run(config, trace).inflight <==> exists j: nat :: Standing(config, trace, key, j)
  {
    if |trace| > 0 {
      var n := |trace| - 1;
      PresentIff(config, trace[..n], key);
      EntryStep(Run(config, trace[..n]), trace[n], key);
      assert EffectAt(config, trace, n) == EffectOf(Run(config, trace[..n]), trace[n]);
      if j: nat :| Standing(config, trace, key, j) {
        StandingStep(config, trace, key, j);
      }
      if key in Run(config, trace).inflight {
        if key in Run(config, trace[..n]).inflight && !Clears(trace[n], key) {
          var j: nat :| Standing(config, trace[..n], key, j);
          StandingStep(config, trace, key, j);
        } else {
          StandingStep(config, trace, key, n);
        }
      }
    }
  }

  /** What a completion of a present key changes. */
  ghost predicate CompletionDoes(m: Monitor, step: Step, key: IoKey, issueNs: nat, shared: bool, after: Monitor)
    requires step.Complete?
  {
    var latencyNs := (step.nowNs - issueNs) % U64;
    var on := Enabled(m.config, F_STORAGE);
    var severe := IsCritical(m.config, step.errorCode, latencyNs) || IsSlow(m.config, latencyNs);
    && key in m.inflight && after.inflight == m.inflight - {key} && after.config == m.config
    && after.ambiguousIo == m.ambiguousIo + (if on && shared then 1 else 0)
    && after.lostEvents == m.lostEvents + (if on && !shared && severe && !step.slot then 1 else 0)
    && |after.events| == |m.events| + (if on && !shared && severe && step.slot then 1 else 0)
    && m.events <= after.events
  }

  lemma {:induction false} CompletionStep(m: Monitor, step: Step, key: IoKey)
    requires step.Complete? && StepKey(step) == Some(key)
    ensures if key in m.inflight
            then CompletionDoes(m, step, key, m.inflight[key].issueNs, m.inflight[key].ambiguous, Apply(m, step))
            else Apply(m, step) == m
  {
  }

  /** What a completion does, from the history of its key alone: nothing without an
      entry; else the entry goes, and beyond that nothing when storage is off, one
      ambiguous count when another tracked issue shared the entry, nothing when it is
      neither critical nor slow, one lost event without a slot, and one event with. */
  lemma {:induction false} CompletionOutcome(config: TapioConfig, trace: seq<Step>, step: Step, key: IoKey)
    requires step.Complete? && StepKey(step) == Some(key)
    ensures var m, after := Run(config, trace), Apply(Run(config, trace), step);
            match Owner(config, trace, key)
            case None => after == m
            case Some(j) =>
              trace[j].Issue?
              && CompletionDoes(m, step, key, trace[j].nowNs, SharedSince(config, trace, key, j), after)
  {
    MapIsHistory(config, trace, key);
    CompletionStep(Run(config, trace), step, key);
  }

  /** The `k`-th event is that of the `k`-th emitting completion. */
  ghost predicate EventTold(config: TapioConfig, trace: seq<Step>, event: StorageEvent, k: nat, p: nat, j: nat) {
    && Tells(config, trace, event, p, j)
    && EffectAt(config, trace, p) == Emitted && Count(config, trace[..p], Emitted) == k
  }

  lemma {:induction false} ToldStays(
    config: TapioConfig, trace: seq<Step>, event: StorageEvent, k: nat, p: nat, j: nat)
    requires |trace| > 0 && EventTold(config, trace[..|trace| - 1], event, k, p, j)
    ensures EventTold(config, trace, event, k, p, j)
  {
    PrefixFacts(config, trace, |trace| - 1);
  }

  /** On every run every event in the ring tells, field by field, of one completion and
      the issue its entry came from, in the order of the completions. */
  lemma {:induction false} EveryEventTells(config: TapioConfig, trace: seq<Step>, k: nat)
    requires k < |Run(config, trace).events|
    ensures exists p: nat, j: nat :: EventTold(config, trace, Run(config, trace).events[k], k, p, j)
  {
    var n := |trace| - 1;
    var before := Run(config, trace[..n]);
    MetricsConserved(config, trace[..n]);
    if k < |before.events| {
      EveryEventTells(config, trace[..n], k);
      var p: nat, j: nat :| EventTold(config, trace[..n], before.events[k], k, p, j);
      ToldStays(config, trace, before.events[k], k, p, j);
      assert Run(config, trace).events[k] == before.events[k];
    } else {
      NewEventTells(config, trace);
      var j: nat :| EmitsFor(config, trace, n, j);
      assert EventTold(config, trace, Run(config, trace).events[k], k, n, j);
    }
  }

  lemma {:induction false} NewEventTells(config: TapioConfig, trace: seq<Step>)
    requires |trace| > 0
    requires |Run(config, trace).events| > |Run(config, trace[..|trace| - 1]).events|
    ensures var n := |trace| - 1;
            var before := Run(config, trace[..n]);
            && trace[n].Complete? && EffectAt(config, trace, n) == Emitted
            && Run(config, trace).events == before.events + [EventOf(before, trace[n])]
            && (exists j: nat :: EmitsFor(config, trace, n, j))
            && forall j: nat | EmitsFor(config, trace, n, j) :: Tells(config, trace, EventOf(before, trace[n]), n, j)
  {
    EmissionIff(config, trace, |trace| - 1);
  }
}
