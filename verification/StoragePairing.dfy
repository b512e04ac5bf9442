/** When a storage event's latency really belongs to the request that completed.
    The tracepoints carry no request pointer, so this needs physical identities
    the handlers do not have. */
module StoragePairing {
  import opened Decimal
  import opened KernelConfig
  import opened MachineInt
  import opened StorageMonitor

  /** Requests issued and not yet completed, with the position of their issue. */
  ghost function Outstanding(trace: seq<Step>): (o: map<nat, nat>)
    ensures forall q | q in o :: o[q] < |trace| && trace[o[q]].Issue? && trace[o[q]].id == q
  {
    if |trace| == 0 then map[]
    else
      var n := |trace| - 1;
      var before := Outstanding(trace[..n]);
      match trace[n]
      case Issue(id, _, _, _, _, _) => before[id := n]
      case Complete(id, _, _, _, _) => before - {id}
      case _ => before
  }

  ghost predicate EverIssued(trace: seq<Step>, id: nat) {
    exists i :: 0 <= i < |trace| && trace[i].Issue? && trace[i].id == id
  }

  /** What hardware and a monotone u64 clock guarantee of one more step: a fresh
      identity per issue, completion of an outstanding request with the fields it
      was issued with, not before it was issued. */
  ghost predicate Physical(trace: seq<Step>, step: Step) {
    match step
    case Issue(id, _, nowNs, _, _, _) => !EverIssued(trace, id) && nowNs < U64
    case Complete(id, request, nowNs, _, _) =>
      id in Outstanding(trace)
      && trace[Outstanding(trace)[id]].request == request
      && trace[Outstanding(trace)[id]].nowNs <= nowNs < U64
    case _ => true
  }

  ghost predicate WellFormed(trace: seq<Step>) {
    |trace| == 0 || (WellFormed(trace[..|trace| - 1]) && Physical(trace[..|trace| - 1], trace[|trace| - 1]))
  }

  ghost predicate OutstandingFor(trace: seq<Step>, q: nat, key: IoKey) {
    q in Outstanding(trace) && StepKey(trace[Outstanding(trace)[q]]) == Some(key)
  }

  /** One more step: an insert meets no outstanding request of its key, and an issue
      that finds an unmarked entry of its key finds storage enabled. */
  ghost predicate SeparatedStep(config: TapioConfig, before: seq<Step>, step: Step) {
    step.Issue? && StepKey(step).Some? ==>
      var key, m := StepKey(step).value, Run(config, before);
      && (EffectOf(m, step) == Inserted ==> forall q :: !OutstandingFor(before, q, key))
      && (key in m.inflight && !m.inflight[key].ambiguous ==> Enabled(m.config, F_STORAGE))
  }

  ghost predicate Separated(config: TapioConfig, trace: seq<Step>) {
    |trace| == 0
    || (Separated(config, trace[..|trace| - 1])
        && SeparatedStep(config, trace[..|trace| - 1], trace[|trace| - 1]))
  }

  /** The entry of a key belongs to the one outstanding request of that key. */
  ghost predicate Sole(config: TapioConfig, trace: seq<Step>, key: IoKey) {
    var o := Owner(config, trace, key);
    && o.Some?
    && trace[o.value].Issue?
    && trace[o.value].id in Outstanding(trace) && Outstanding(trace)[trace[o.value].id] == o.value
    && (forall q | OutstandingFor(trace, q, key) :: q == trace[o.value].id)
    && NoOtherIssue(trace, key, o.value)
    && (forall q :: !OutstandingFor(trace[..o.value], q, key))
  }

  ghost predicate NoOtherIssue(trace: seq<Step>, key: IoKey, j: nat) {
    forall i | j < i < |trace| :: !(trace[i].Issue? && StepKey(trace[i]) == Some(key))
  }

  lemma {:induction false} OutstandingStep(trace: seq<Step>, q: nat, key: IoKey)
    requires |trace| > 0
    ensures var n := |trace| - 1;
            OutstandingFor(trace, q, key) <==>
              if trace[n].Issue? && trace[n].id == q then StepKey(trace[n]) == Some(key)
              else OutstandingFor(trace[..n], q, key) && !(trace[n].Complete? && trace[n].id == q)
  {
  }

  lemma {:induction false} SoleStarts(config: TapioConfig, trace: seq<Step>, key: IoKey)
    requires |trace| > 0 && WellFormed(trace) && Separated(config, trace)
    requires StepKey(trace[|trace| - 1]) == Some(key) && EffectAt(config, trace, |trace| - 1) == Inserted
    ensures Sole(config, trace, key)
  {
    var n := |trace| - 1;
    forall q | OutstandingFor(trace, q, key) ensures q == trace[n].id {
      OutstandingStep(trace, q, key);
      assert !OutstandingFor(trace[..n], q, key);
    }
  }

  lemma {:induction false} SoleKept(config: TapioConfig, trace: seq<Step>, key: IoKey)
    requires |trace| > 0 && WellFormed(trace) && StepKey(trace[|trace| - 1]) != Some(key)
    requires Sole(config, trace[..|trace| - 1], key)
    ensures Sole(config, trace, key)
  {
    var n := |trace| - 1;
    var before, step := trace[..n], trace[n];
    var j := Owner(config, before, key).value;
    assert Owner(config, trace, key) == Some(j);
    assert trace[j] == before[j] && trace[..j] == before[..j];
    assert OutstandingFor(before, before[j].id, key) by {
      MapIsHistory(config, before, key);
    }
    forall q | OutstandingFor(trace, q, key) ensures q == trace[j].id { OutstandingStep(trace, q, key); }
    forall i | j < i < |trace| ensures !(trace[i].Issue? && StepKey(trace[i]) == Some(key)) {
      if i < n { assert before[i] == trace[i]; }
    }
    assert EverIssued(before, before[j].id);
  }

  /** Under separation, an unambiguous entry has exactly one candidate. */
  lemma {:induction false} UnambiguousIsSole(config: TapioConfig, trace: seq<Step>, key: IoKey)
    requires WellFormed(trace) && Separated(config, trace)
    requires key in Run(config, trace).inflight && !Run(config, trace).inflight[key].ambiguous
    ensures Sole(config, trace, key)
  {
    var n := |trace| - 1;
    EntryStep(Run(config, trace[..n]), trace[n], key);
    if StepKey(trace[n]) == Some(key) {
      SoleStarts(config, trace, key);
    } else {
      UnambiguousIsSole(config, trace[..n], key);
      SoleKept(config, trace, key);
    }
  }

  /** Under separation every event carries the latency, cgroup and pid of the
      very request that completed, and no request of the same key was
      outstanding at any moment of its life. */
  lemma {:induction false} EmittedPairsExactly(config: TapioConfig, trace: seq<Step>, step: Step)
    requires WellFormed(trace + [step]) && Separated(config, trace + [step])
    requires step.Complete? && EffectOf(Run(config, trace), step) == Emitted
    ensures step.id in Outstanding(trace)
    ensures var j := Outstanding(trace)[step.id];
            var key := StepKey(step).value;
            var event := EventOf(Run(config, trace), step);
            && event.latencyNs == step.nowNs - trace[j].nowNs
            && event.cgroupId == trace[j].cgroupId && event.pid == trace[j].pid
            && NoOtherIssue(trace, key, j)
            && forall q :: !OutstandingFor(trace[..j], q, key)
  {
    var key := StepKey(step).value;
    assert (trace + [step])[..|trace|] == trace;
    UnambiguousIsSole(config, trace, key);
    MapIsHistory(config, trace, key);
    assert OutstandingFor(trace, step.id, key);
  }

  // ----- a step towards the exact condition -----

  /** The event of this completion would carry another request's issue. */
  ghost predicate Mispairs(config: TapioConfig, trace: seq<Step>, step: Step) {
    && step.Complete? && Physical(trace, step)
    && EffectOf(Run(config, trace), step) == Emitted
    && Owner(config, trace, StepKey(step).value) != Some(Outstanding(trace)[step.id])
  }

  ghost predicate Impostor(config: TapioConfig, trace: seq<Step>, q: nat, key: IoKey) {
    var inflight := Run(config, trace).inflight;
    && key in inflight && !inflight[key].ambiguous
    && OutstandingFor(trace, q, key) && Owner(config, trace, key) != Some(Outstanding(trace)[q])
  }

  lemma {:induction false} IssueTimesFit(trace: seq<Step>, i: nat)
    requires WellFormed(trace) && i < |trace| && trace[i].Issue?
    ensures trace[i].nowNs < U64
  {
    var n := |trace| - 1;
    if i < n {
      assert trace[..n][i] == trace[i];
      IssueTimesFit(trace[..n], i);
    }
  }

  /** A step towards NeverMispairsIff: after any run with storage enabled, some
      completion could be mispaired exactly when there is an impostor. */
  lemma {:induction false} MispairingIff(config: TapioConfig, trace: seq<Step>)
    requires WellFormed(trace)
    ensures (exists step :: Mispairs(config, trace, step))
        <==> Enabled(Run(config, trace).config, F_STORAGE) && exists q, key :: Impostor(config, trace, q, key)
  {
    if step :| Mispairs(config, trace, step) {
      assert Impostor(config, trace, step.id, StepKey(step).value);
    }
    if q, key :| Enabled(Run(config, trace).config, F_STORAGE) && Impostor(config, trace, q, key) {
      var j := Outstanding(trace)[q];
      IssueTimesFit(trace, j);
      var step := Complete(q, trace[j].request, trace[j].nowNs, 1, true);
      assert Mispairs(config, trace, step);
    }
  }

  // ----- exactly when a whole run is safe -----

  /** At no point of the run, even with storage switched on there, could a
      completion be mispaired. */
  ghost predicate NeverMispairs(config: TapioConfig, trace: seq<Step>) {
    forall p: nat, c, step | p <= |trace| && Enabled(c, F_STORAGE) ::
      !Mispairs(config, trace[..p] + [SetConfig(c)], step)
  }

  ghost predicate NoImpostor(config: TapioConfig, trace: seq<Step>) {
    forall q, key :: !Impostor(config, trace, q, key)
  }

  lemma {:induction false} SoleIsNoImpostor(config: TapioConfig, trace: seq<Step>)
    requires WellFormed(trace) && Separated(config, trace)
    ensures NoImpostor(config, trace)
  {
    forall q, key ensures !Impostor(config, trace, q, key) {
      if Impostor(config, trace, q, key) { UnambiguousIsSole(config, trace, key); }
    }
  }

  /** The first step that breaks separation leaves an impostor behind. */
  lemma {:induction false} BrokenLeavesImpostor(config: TapioConfig, trace: seq<Step>)
    requires |trace| > 0 && WellFormed(trace)
    requires !SeparatedStep(config, trace[..|trace| - 1], trace[|trace| - 1])
    ensures !NoImpostor(config, trace)
  {
    var n := |trace| - 1;
    var before, step := trace[..n], trace[n];
    var key, m := StepKey(step).value, Run(config, before);
    EntryStep(m, step, key);
    if EffectOf(m, step) == Inserted {
      var q :| OutstandingFor(before, q, key);
      assert EverIssued(before, q);
      OutstandingStep(trace, q, key);
      assert Outstanding(trace)[q] < n;
      assert Impostor(config, trace, q, key);
    } else {
      OutstandingStep(trace, step.id, key);
      assert Outstanding(trace)[step.id] == n;
      assert Owner(config, trace, key) == Owner(config, before, key);
      assert Impostor(config, trace, step.id, key);
    }
  }

  lemma {:induction false} SeparatedIffNoImpostor(config: TapioConfig, trace: seq<Step>)
    requires WellFormed(trace)
    ensures Separated(config, trace) <==> forall p: nat | p <= |trace| :: NoImpostor(config, trace[..p])
  {
    assert trace[..|trace|] == trace;
    if |trace| == 0 {
      SoleIsNoImpostor(config, trace);
    } else {
      var n := |trace| - 1;
      SeparatedIffNoImpostor(config, trace[..n]);
      assert forall p: nat | p <= n :: trace[..n][..p] == trace[..p];
      if Separated(config, trace) {
        SoleIsNoImpostor(config, trace);
      } else if forall p: nat | p <= |trace| :: NoImpostor(config, trace[..p]) {
        assert forall p: nat | p <= n :: NoImpostor(config, trace[..n][..p]);
        BrokenLeavesImpostor(config, trace);
      }
    }
  }

  lemma {:induction false} SwitchedOn(config: TapioConfig, trace: seq<Step>, on: TapioConfig)
    requires WellFormed(trace) && Enabled(on, F_STORAGE)
    ensures (exists step :: Mispairs(config, trace + [SetConfig(on)], step)) <==> !NoImpostor(config, trace)
  {
    var t := trace + [SetConfig(on)];
    assert t[..|trace|] == trace;
    RunSnoc(config, trace, SetConfig(on));
    MispairingIff(config, t);
    assert forall q, key :: Impostor(config, t, q, key) == Impostor(config, trace, q, key) by {
      forall q, key ensures Impostor(config, t, q, key) == Impostor(config, trace, q, key) {
        OutstandingStep(t, q, key);
        assert Owner(config, t, key) == Owner(config, trace, key);
      }
    }
  }

  lemma {:induction false} PrefixWellFormed(trace: seq<Step>, p: nat)
    requires WellFormed(trace) && p <= |trace|
    ensures WellFormed(trace[..p])
  {
    if p < |trace| {
      PrefixWellFormed(trace[..|trace| - 1], p);
      assert trace[..|trace| - 1][..p] == trace[..p];
    } else {
      assert trace[..p] == trace;
    }
  }

  /** The exact condition for pairing, on the issues of the run alone: no completion
      can ever be mispaired if and only if every insert meets no outstanding
      request of its key and every issue that finds an unmarked entry of its key
      finds storage enabled. */
  lemma {:induction false} NeverMispairsIff(config: TapioConfig, trace: seq<Step>)
    requires WellFormed(trace)
    ensures NeverMispairs(config, trace) <==> Separated(config, trace)
  {
    SeparatedIffNoImpostor(config, trace);
    forall p: nat, c | p <= |trace| && Enabled(c, F_STORAGE)
      ensures (exists step :: Mispairs(config, trace[..p] + [SetConfig(c)], step)) <==> !NoImpostor(config, trace[..p])
    {
      PrefixWellFormed(trace, p);
      SwitchedOn(config, trace[..p], c);
    }
    var on := config.(abiVersion := ABI_VERSION, flags := F_STORAGE);
    assert Enabled(on, F_STORAGE);
    forall p: nat | p <= |trace| && NeverMispairs(config, trace) ensures NoImpostor(config, trace[..p]) {
      assert forall step :: !Mispairs(config, trace[..p] + [SetConfig(on)], step);
    }
  }

  // ----- both halves are needed -----

  const REQUEST := Request(0, 8, 1, 'R')

  lemma {:induction false} RunSnoc(config: TapioConfig, trace: seq<Step>, step: Step)
    ensures Run(config, trace + [step]) == Apply(Run(config, trace), step)
    ensures Outstanding(trace + [step]) == match step
              case Issue(id, _, _, _, _, _) => Outstanding(trace)[id := |trace|]
              case Complete(id, _, _, _, _) => Outstanding(trace) - {id}
              case _ => Outstanding(trace)
  {
    assert (trace + [step])[..|trace|] == trace;
  }

  /** One more physically possible step of a growing run. */
  lemma {:induction false} Grow(config: TapioConfig, trace: seq<Step>, step: Step)
    requires WellFormed(trace) && Physical(trace, step)
    ensures WellFormed(trace + [step])
    ensures forall id :: EverIssued(trace + [step], id) <==> EverIssued(trace, id) || (step.Issue? && step.id == id)
  {
    var t := trace + [step];
    assert t[..|trace|] == trace;
    forall id ensures EverIssued(t, id) <==> EverIssued(trace, id) || (step.Issue? && step.id == id) {
      if EverIssued(trace, id) {
        var i :| 0 <= i < |trace| && trace[i].Issue? && trace[i].id == id;
        assert t[i].Issue? && t[i].id == id;
      }
      if step.Issue? && step.id == id { assert t[|trace|].Issue? && t[|trace|].id == id; }
    }
  }

  /** What the examples need to know of a run so far. */
  ghost predicate Reaches(config: TapioConfig, trace: seq<Step>, now: TapioConfig, inflight: map<IoKey, IoValue>,
                          outstanding: map<nat, nat>, issued: set<nat>)
  {
    && WellFormed(trace) && Run(config, trace).config == now && Run(config, trace).inflight == inflight
    && Outstanding(trace) == outstanding && (forall id | EverIssued(trace, id) :: id in issued)
  }

  /** One more issue: a new entry, or an ambiguous one, or nothing when storage is off. */
  lemma {:induction false} ReachesIssue(
    config: TapioConfig, trace: seq<Step>, now: TapioConfig, inflight: map<IoKey, IoValue>,
    outstanding: map<nat, nat>, issued: set<nat>, step: Step, key: IoKey)
    requires Reaches(config, trace, now, inflight, outstanding, issued)
    requires step.Issue? && step.id !in issued && step.nowNs < U64 && step.room && StepKey(step) == Some(key)
    ensures Reaches(config, trace + [step], now,
                    if !Enabled(now, F_STORAGE) then inflight
                    else if key in inflight then inflight[key := inflight[key].(ambiguous := true)]
                    else inflight[key := NewValue(step, key)],
                    outstanding[step.id := |trace|], issued + {step.id})
  {
    Grow(config, trace, step);
    RunSnoc(config, trace, step);
  }

  /** The completion of a request whose entry is ambiguous. */
  lemma {:induction false} ReachesAmbiguous(
    config: TapioConfig, trace: seq<Step>, now: TapioConfig, inflight: map<IoKey, IoValue>,
    outstanding: map<nat, nat>, issued: set<nat>, step: Step, key: IoKey)
    requires Reaches(config, trace, now, inflight, outstanding, issued)
    requires step.Complete? && Physical(trace, step) && StepKey(step) == Some(key)
    requires Enabled(now, F_STORAGE) && key in inflight && inflight[key].ambiguous
    ensures Reaches(config, trace + [step], now, inflight - {key}, outstanding - {step.id}, issued)
  {
    Grow(config, trace, step);
    RunSnoc(config, trace, step);
  }

  lemma {:induction false} ReachesConfig(
    config: TapioConfig, trace: seq<Step>, now: TapioConfig, inflight: map<IoKey, IoValue>,
    outstanding: map<nat, nat>, issued: set<nat>, next: TapioConfig)
    requires Reaches(config, trace, now, inflight, outstanding, issued)
    ensures Reaches(config, trace + [SetConfig(next)], next, inflight, outstanding, issued)
  {
    Grow(config, trace, SetConfig(next));
    RunSnoc(config, trace, SetConfig(next));
  }

  const KEY := IoKey(0, 0, 8, 1, Read)

  lemma {:induction false} RequestKey()
    ensures KeyOf(REQUEST) == Some(KEY)
  {
  }

  lemma {:induction false} ReachesStart(config: TapioConfig)
    ensures Reaches(config, [], config, map[], map[], {})
  {
  }

  /** What B's completion does after the last step of either example: it finds an
      unmarked entry that another issue inserted. */
  lemma {:induction false} MispairsWith(config: TapioConfig, trace: seq<Step>, now: TapioConfig, value: IoValue,
                                        outstanding: map<nat, nat>, issued: set<nat>, step: Step)
    requires Reaches(config, trace, now, map[KEY := value], outstanding, issued) && Enabled(now, F_STORAGE)
    requires step == Complete(2, REQUEST, 40, 1, true) && Physical(trace, step)
    requires !value.ambiguous && value.issueNs < 40 && value.issueNs != trace[outstanding[2]].nowNs
    ensures Mispairs(config, trace, step) && EventOf(Run(config, trace), step).latencyNs == 40 - value.issueNs
  {
    RequestKey();
    MapIsHistory(config, trace, KEY);
    SmallLatency(value.issueNs);
  }

  lemma {:induction false} SmallLatency(issueNs: nat)
    requires issueNs < 40
    ensures (40 - issueNs) % U64 == 40 - issueNs
  {
  }

  /** Issue A, issue B, complete A, issue C, complete B, all of one key: B's
      event carries C's issue. The entry was inserted while B was outstanding. */
  lemma {:induction false} SharedKeyMispairs(config: TapioConfig) returns (trace: seq<Step>, step: Step)
    requires Enabled(config, F_STORAGE)
    ensures WellFormed(trace) && Mispairs(config, trace, step)
    ensures EventOf(Run(config, trace), step).latencyNs == 10
         && step.nowNs - trace[Outstanding(trace)[step.id]].nowNs == 30
  {
    var a, b := Issue(1, REQUEST, 0, 7, 70, true), Issue(2, REQUEST, 10, 8, 80, true);
    var done, c := Complete(1, REQUEST, 20, 0, true), Issue(3, REQUEST, 30, 9, 90, true);
    step := Complete(2, REQUEST, 40, 1, true);
    RequestKey();
    ReachesStart(config);
    ReachesIssue(config, [], config, map[], map[], {}, a, KEY);
    var shared := NewValue(a, KEY);
    ReachesIssue(config, [] + [a], config, map[KEY := shared], map[1 := 0], {1}, b, KEY);
    var two := [] + [a] + [b];
    ReachesAmbiguous(config, two, config, map[KEY := shared.(ambiguous := true)], map[1 := 0, 2 := 1], {1, 2},
                     done, KEY);
    assert map[KEY := shared.(ambiguous := true)] - {KEY} == map[];
    assert map[1 := 0, 2 := 1] - {1} == map[2 := 1];
    ReachesIssue(config, two + [done], config, map[], map[2 := 1], {1, 2}, c, KEY);
    trace := two + [done] + [c];
    MispairsWith(config, trace, config, NewValue(c, KEY), map[2 := 1, 3 := 3], {1, 2, 3}, step);
  }

  /** Issue A, switch storage off, issue B, switch it on, complete B: the second
      request was never marked, and B's event carries A's issue. */
  lemma {:induction false} UntrackedIssueMispairs(config: TapioConfig, off: TapioConfig)
    returns (trace: seq<Step>, step: Step)
    requires Enabled(config, F_STORAGE) && !Enabled(off, F_STORAGE)
    ensures WellFormed(trace) && Mispairs(config, trace, step)
    ensures EventOf(Run(config, trace), step).latencyNs == 40
         && step.nowNs - trace[Outstanding(trace)[step.id]].nowNs == 20
  {
    var a, b := Issue(1, REQUEST, 0, 7, 70, true), Issue(2, REQUEST, 20, 8, 80, true);
    step := Complete(2, REQUEST, 40, 1, true);
    RequestKey();
    ReachesStart(config);
    ReachesIssue(config, [], config, map[], map[], {}, a, KEY);
    var entry := map[KEY := NewValue(a, KEY)];
    ReachesConfig(config, [] + [a], config, entry, map[1 := 0], {1}, off);
    var two := [] + [a] + [SetConfig(off)];
    ReachesIssue(config, two, off, entry, map[1 := 0], {1}, b, KEY);
    ReachesConfig(config, two + [b], off, entry, map[1 := 0, 2 := 2], {1, 2}, config);
    trace := two + [b] + [SetConfig(config)];
    MispairsWith(config, trace, config, NewValue(a, KEY), map[1 := 0, 2 := 2], {1, 2}, step);
  }
}
