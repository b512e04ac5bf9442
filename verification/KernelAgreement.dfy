/** Whether the kernel runs the config the agent reports: carrier writes may be
    refused, the thresholds channel may be closed, and registrations write late. */
module KernelAgreement {
  import opened Decimal
  import opened KernelConfig
  import opened EvidenceProfile
  import opened ConfigCompiler
  import opened Controller
  import opened ConfigPolling
  import C = ConfigCarriers

  /** The config in a carrier's map, none while it is the startup config. */
  function HeldConfig(agent: Agent, i: nat): Option<TapioConfig>
    requires i < |agent.registry.carriers|
  {
    ConfigNo(agent, agent.registry.carriers[i].held)
  }

  /** The config of the identity the agent reports. */
  function ReportedConfig(agent: Agent): Option<TapioConfig> { ConfigNo(agent, agent.appliedNumber) }

  /** Every carrier's map holds the config of the identity the agent reports. */
  ghost predicate InSync(agent: Agent) {
    agent.applied.Some?
    && forall i: nat | i < |agent.registry.carriers| :: HeldConfig(agent, i) == ReportedConfig(agent)
  }

  /** The config that step `p` starts to fan out, if it is a poll that does. */
  ghost function PublishedAt(config: ConfigResponse, trace: seq<Step>, p: nat, id: AgentId): Option<TapioConfig>
    requires p < |trace|
  {
    var f := Run(config, trace[..p]);
    var agent := AgentOf(f, id);
    match trace[p]
    case Fetch(a, delivery) =>
      if a == id && !agent.sending && agent.registry.fanout.Idle? && Request(agent, f.controller.config, delivery).New?
      then Some(AgentCheck(Request(agent, f.controller.config, delivery).response).value)
      else None
    case _ => None
  }

  /** The poll that started the latest fan-out. */
  ghost function LastPublication(config: ConfigResponse, trace: seq<Step>, id: AgentId): Option<nat> {
    if |trace| == 0 then None
    else
      var n := |trace| - 1;
      if trace[n] == Restart(id) then None
      else if PublishedAt(config, trace, n, id).Some? then Some(n)
      else LastPublication(config, trace[..n], id)
  }

  /** The poll whose config was last marked applied: its fan-out was over and the
      thresholds channel open. */
  ghost function LastApplied(config: ConfigResponse, trace: seq<Step>, id: AgentId): Option<nat> {
    if |trace| == 0 then None
    else
      var n := |trace| - 1;
      var before := AgentOf(Run(config, trace[..n]), id);
      match trace[n]
      case Mark(a, true) =>
        if a == id && before.sending && before.registry.fanout.Idle? then LastPublication(config, trace[..n], id)
        else LastApplied(config, trace[..n], id)
      case Restart(a) => if a == id then None else LastApplied(config, trace[..n], id)
      case _ => LastApplied(config, trace[..n], id)
  }

  /** The poll whose config was current when carrier `i` registered. */
  ghost function CurrentAtBirth(config: ConfigResponse, trace: seq<Step>, id: AgentId, i: nat): Option<nat> {
    if |trace| == 0 then None
    else
      var n := |trace| - 1;
      if trace[n] == Restart(id) then None
      else if trace[n] == Carrier(id, C.Register)
              && i == |AgentOf(Run(config, trace[..n]), id).registry.carriers| then
        LastPublication(config, trace[..n], id)
      else CurrentAtBirth(config, trace[..n], id, i)
  }

  /** The poll whose config the last successful write to carrier `i` carried: a
      fan-out write carries the latest, a registration's own write the one
      current at registration. */
  ghost function LastWritten(config: ConfigResponse, trace: seq<Step>, id: AgentId, i: nat): Option<nat> {
    if |trace| == 0 then None
    else
      var n := |trace| - 1;
      var before := AgentOf(Run(config, trace[..n]), id);
      match trace[n]
      case Restart(a) => if a == id then None else LastWritten(config, trace[..n], id, i)
      case Carrier(a, s) =>
        if a == id && s == C.FanoutWrite(true) && C.Possible(before.registry, s)
           && before.registry.fanout.next == i then
          LastPublication(config, trace[..n], id)
        else if a == id && s == C.LateWrite(i, true) && C.Possible(before.registry, s) then
          CurrentAtBirth(config, trace[..n], id, i)
        else LastWritten(config, trace[..n], id, i)
      case _ => LastWritten(config, trace[..n], id, i)
  }

  /** `number` names the config that the poll at `p` fanned out. */
  ghost predicate Names(config: ConfigResponse, trace: seq<Step>, id: AgentId, p: Option<nat>, number: nat) {
    match p
    case None => number == 0
    case Some(q) =>
      && q < |trace| && PublishedAt(config, trace, q, id).Some?
      && PublishedAt(config, trace, q, id) == ConfigNo(AgentOf(Run(config, trace), id), number)
  }

  /** The numbers the agent keeps are those of the polls its history singles out. */
  ghost predicate Traced(config: ConfigResponse, trace: seq<Step>, id: AgentId) {
    var agent := AgentOf(Run(config, trace), id);
    && Names(config, trace, id, LastPublication(config, trace, id), |agent.responses|)
    && Names(config, trace, id, LastApplied(config, trace, id), agent.appliedNumber)
    && forall i: nat :: CarrierTraced(config, trace, id, i)
  }

  ghost predicate CarrierTraced(config: ConfigResponse, trace: seq<Step>, id: AgentId, i: nat) {
    var carriers := AgentOf(Run(config, trace), id).registry.carriers;
    && Names(config, trace, id, CurrentAtBirth(config, trace, id, i), if i < |carriers| then carriers[i].born else 0)
    && Names(config, trace, id, LastWritten(config, trace, id, i), if i < |carriers| then carriers[i].held else 0)
  }

  /** What a number names does not change, except by a restart. */
  lemma {:induction false} NamesStays(
    config: ConfigResponse, trace: seq<Step>, id: AgentId, p: Option<nat>, number: nat)
    requires |trace| > 0 && trace[|trace| - 1] != Restart(id)
    requires Names(config, trace[..|trace| - 1], id, p, number)
    requires number <= |AgentOf(Run(config, trace[..|trace| - 1]), id).responses|
    ensures Names(config, trace, id, p, number)
  {
    var n := |trace| - 1;
    var before := Run(config, trace[..n]);
    NumbersStay(before, trace[n], id, number);
    if p.Some? {
      assert trace[..n][..p.value] == trace[..p.value];
      assert PublishedAt(config, trace[..n], p.value, id) == PublishedAt(config, trace, p.value, id);
    }
  }

  lemma {:induction false} NumbersStay(f: Fleet, step: Step, id: AgentId, number: nat)
    requires step != Restart(id) && number <= |AgentOf(f, id).responses|
    ensures ConfigNo(AgentOf(Apply(f, step), id), number) == ConfigNo(AgentOf(f, id), number)
    ensures AgentOf(f, id).responses <= AgentOf(Apply(f, step), id).responses
  {
    AgentStep(f, step, id);
  }

  lemma {:induction false} PublicationTraced(config: ConfigResponse, trace: seq<Step>, id: AgentId)
    requires |trace| > 0 && trace[|trace| - 1] != Restart(id)
    requires Names(config, trace[..|trace| - 1], id, LastPublication(config, trace[..|trace| - 1], id),
                   |AgentOf(Run(config, trace[..|trace| - 1]), id).responses|)
    ensures Names(config, trace, id, LastPublication(config, trace, id), |AgentOf(Run(config, trace), id).responses|)
  {
    var n := |trace| - 1;
    var before := Run(config, trace[..n]);
    AgentStep(before, trace[n], id);
    if PublishedAt(config, trace, n, id) == None {
      NamesStays(config, trace, id, LastPublication(config, trace[..n], id), |AgentOf(before, id).responses|);
    }
  }

  lemma {:induction false} AppliedTraced(config: ConfigResponse, trace: seq<Step>, id: AgentId)
    requires |trace| > 0 && trace[|trace| - 1] != Restart(id) && Traced(config, trace[..|trace| - 1], id)
    requires Sound(AgentOf(Run(config, trace[..|trace| - 1]), id))
    ensures Names(config, trace, id, LastApplied(config, trace, id), AgentOf(Run(config, trace), id).appliedNumber)
  {
    var n := |trace| - 1;
    var before := AgentOf(Run(config, trace[..n]), id);
    AgentStep(Run(config, trace[..n]), trace[n], id);
    if trace[n] == Mark(id, true) && before.sending && before.registry.fanout.Idle? {
      assert AgentCheck(before.responses[|before.responses| - 1]).Ok?;
      NamesStays(config, trace, id, LastPublication(config, trace[..n], id), |before.responses|);
    } else {
      AppliedNumberBound(before);
      NamesStays(config, trace, id, LastApplied(config, trace[..n], id), before.appliedNumber);
    }
  }

  lemma {:induction false} AppliedNumberBound(agent: Agent)
    requires Sound(agent)
    ensures agent.appliedNumber <= |agent.responses|
  {
  }

  /** What one carrier step does to carrier `i`. */
  lemma {:induction false} CarrierStepMeans(s: C.Registry, step: C.Step, i: nat)
    requires !step.Publish?
    ensures var after := C.Apply(s, step).carriers;
            var born := if i < |s.carriers| then s.carriers[i].born else 0;
            var held := if i < |s.carriers| then s.carriers[i].held else 0;
            && (if i < |after| then after[i].born else 0)
               == (if step.Register? && i == |s.carriers| then s.published else born)
            && (if i < |after| then after[i].held else 0)
               == (if step == C.FanoutWrite(true) && C.Possible(s, step) && s.fanout.next == i then s.published
                   else if step == C.LateWrite(i, true) && C.Possible(s, step) then born
                   else held)
  {
  }

  /** Where the numbers of carrier `i` come from in one step. */
  lemma {:induction false} CarrierNumbers(agent: Agent, config: ConfigResponse, step: Step, i: nat)
    requires IsLocal(step) && !step.Restart?
    ensures var s := agent.registry;
            var after := Local(agent, config, step).registry.carriers;
            var born := if i < |s.carriers| then s.carriers[i].born else 0;
            var held := if i < |s.carriers| then s.carriers[i].held else 0;
            && (if i < |after| then after[i].born else 0)
               == (if step.Carrier? && step.step == C.Register && i == |s.carriers| then s.published else born)
            && (if i < |after| then after[i].held else 0)
               == (if step.Carrier? && step.step == C.FanoutWrite(true) && C.Possible(s, step.step)
                      && s.fanout.next == i
                   then s.published
                   else if step.Carrier? && step.step == C.LateWrite(i, true) && C.Possible(s, step.step) then born
                   else held)
  {
    if step.Carrier? && !step.step.Publish? { CarrierStepMeans(agent.registry, step.step, i); }
  }

  lemma {:induction false} CarrierNumbersBound(agent: Agent, i: nat)
    requires Sound(agent) && i < |agent.registry.carriers|
    ensures agent.registry.carriers[i].born <= |agent.responses| && agent.registry.carriers[i].held <= |agent.responses|
  {
    assert agent.registry.carriers[i] in agent.registry.carriers;
  }

  lemma {:induction false} CarrierStaysTraced(config: ConfigResponse, trace: seq<Step>, id: AgentId, i: nat)
    requires |trace| > 0 && trace[|trace| - 1] != Restart(id) && Traced(config, trace[..|trace| - 1], id)
    requires Sound(AgentOf(Run(config, trace[..|trace| - 1]), id))
    ensures CarrierTraced(config, trace, id, i)
  {
    var n := |trace| - 1;
    var before := AgentOf(Run(config, trace[..n]), id);
    var carriers := before.registry.carriers;
    var born, held := if i < |carriers| then carriers[i].born else 0, if i < |carriers| then carriers[i].held else 0;
    assert CarrierTraced(config, trace[..n], id, i);
    if i < |carriers| { CarrierNumbersBound(before, i); }
    NamesStays(config, trace, id, LastPublication(config, trace[..n], id), |before.responses|);
    NamesStays(config, trace, id, CurrentAtBirth(config, trace[..n], id, i), born);
    NamesStays(config, trace, id, LastWritten(config, trace[..n], id, i), held);
    CarrierSources(config, trace, id, i);
  }

  /** The numbers of carrier `i` after a step, and the polls the history gives it,
      change together. */
  lemma {:induction false} CarrierSources(config: ConfigResponse, trace: seq<Step>, id: AgentId, i: nat)
    requires |trace| > 0 && trace[|trace| - 1] != Restart(id)
    ensures var n := |trace| - 1;
            var before := AgentOf(Run(config, trace[..n]), id).registry;
            var after := AgentOf(Run(config, trace), id).registry;
            var born := if i < |before.carriers| then before.carriers[i].born else 0;
            var held := if i < |before.carriers| then before.carriers[i].held else 0;
            var bornAfter := if i < |after.carriers| then after.carriers[i].born else 0;
            var heldAfter := if i < |after.carriers| then after.carriers[i].held else 0;
            && ((bornAfter == born
                 && CurrentAtBirth(config, trace, id, i) == CurrentAtBirth(config, trace[..n], id, i))
                || (bornAfter == before.published
                    && CurrentAtBirth(config, trace, id, i) == LastPublication(config, trace[..n], id)))
            && ((heldAfter == held && LastWritten(config, trace, id, i) == LastWritten(config, trace[..n], id, i))
                || (heldAfter == before.published
                    && LastWritten(config, trace, id, i) == LastPublication(config, trace[..n], id))
                || (heldAfter == born
                    && LastWritten(config, trace, id, i) == CurrentAtBirth(config, trace[..n], id, i)))
  {
    var n := |trace| - 1;
    AgentStep(Run(config, trace[..n]), trace[n], id);
    if IsLocal(trace[n]) && trace[n].agent == id {
      CarrierNumbers(AgentOf(Run(config, trace[..n]), id), Run(config, trace[..n]).controller.config, trace[n], i);
    }
  }

  lemma {:induction false} RunIsTraced(config: ConfigResponse, trace: seq<Step>, id: AgentId)
    ensures Traced(config, trace, id)
  {
    if |trace| > 0 {
      var n := |trace| - 1;
      if trace[n] != Restart(id) {
        RunIsTraced(config, trace[..n], id);
        EtagFollowsIdentity(config, trace[..n], id);
        PublicationTraced(config, trace, id);
        AppliedTraced(config, trace, id);
        forall i: nat ensures CarrierTraced(config, trace, id, i) { CarrierStaysTraced(config, trace, id, i); }
      }
    }
  }

  /** The config last written to carrier `i` is the one last marked applied. */
  ghost predicate WrittenIsApplied(config: ConfigResponse, trace: seq<Step>, id: AgentId, i: nat) {
    var written, applied := LastWritten(config, trace, id, i), LastApplied(config, trace, id);
    && written.Some? && written.value < |trace| && applied.Some? && applied.value < |trace|
    && PublishedAt(config, trace, written.value, id) == PublishedAt(config, trace, applied.value, id)
  }

  /** On every run and under every interleaving, the kernel runs the config the
      agent reports exactly when some poll was marked applied and, carrier by
      carrier, the last write the kernel took carried that poll's config. A
      refused write, a closed thresholds channel and a late write each break it. */
  lemma {:induction false} SyncedIff(config: ConfigResponse, trace: seq<Step>, id: AgentId)
    ensures InSync(AgentOf(Run(config, trace), id))
       <==> LastApplied(config, trace, id).Some?
            && forall i: nat | i < |AgentOf(Run(config, trace), id).registry.carriers| ::
                 WrittenIsApplied(config, trace, id, i)
  {
    var agent := AgentOf(Run(config, trace), id);
    RunIsTraced(config, trace, id);
    EtagFollowsIdentity(config, trace, id);
    forall i: nat | i < |agent.registry.carriers| && agent.applied.Some?
      ensures HeldConfig(agent, i) == ReportedConfig(agent) <==> WrittenIsApplied(config, trace, id, i)
    {
      assert CarrierTraced(config, trace, id, i);
    }
  }

  // ----- the guards that decide it -----

  /** The registry's own steps in an agent's life. */
  ghost function CarrierSteps(config: ConfigResponse, trace: seq<Step>, id: AgentId): seq<C.Step> {
    if |trace| == 0 then []
    else
      var n := |trace| - 1;
      var before := CarrierSteps(config, trace[..n], id);
      if trace[n] == Restart(id) then []
      else if PublishedAt(config, trace, n, id).Some? then before + [C.Publish]
      else match trace[n]
           case Carrier(a, s) => if a == id && !s.Publish? then before + [s] else before
           case _ => before
  }

  /** Every interleaving of the registry's steps within an agent's run is a run of
      the registry alone. */
  lemma {:induction false} RegistryIsRun(config: ConfigResponse, trace: seq<Step>, id: AgentId)
    ensures AgentOf(Run(config, trace), id).registry == C.Run(CarrierSteps(config, trace, id))
  {
    if |trace| > 0 {
      var n := |trace| - 1;
      var f, before := Run(config, trace[..n]), CarrierSteps(config, trace[..n], id);
      RegistryIsRun(config, trace[..n], id);
      AgentStep(f, trace[n], id);
      if PublishedAt(config, trace, n, id).Some? {
        C.RunSnoc(before, C.Publish);
      } else if trace[n].Carrier? && trace[n].agent == id && !trace[n].step.Publish? {
        C.RunSnoc(before, trace[n].step);
      } else if trace[n] != Restart(id) {
        SameRegistry(config, trace, id);
      }
    }
  }

  lemma {:induction false} SameRegistry(config: ConfigResponse, trace: seq<Step>, id: AgentId)
    requires |trace| > 0 && trace[|trace| - 1] != Restart(id)
    requires PublishedAt(config, trace, |trace| - 1, id) == None
    requires trace[|trace| - 1].Carrier? && trace[|trace| - 1].agent == id ==> trace[|trace| - 1].step.Publish?
    ensures AgentOf(Run(config, trace), id).registry == AgentOf(Run(config, trace[..|trace| - 1]), id).registry
  {
    AgentStep(Run(config, trace[..|trace| - 1]), trace[|trace| - 1], id);
  }

  /** The thresholds of the latest config have not gone out: the send found the
      channel closed, or is still to come. */
  ghost predicate Unsent(config: ConfigResponse, trace: seq<Step>, id: AgentId) {
    |trace| > 0
    && (var n := |trace| - 1;
        var before := AgentOf(Run(config, trace[..n]), id);
        trace[n] != Restart(id)
        && (PublishedAt(config, trace, n, id).Some?
            || (Unsent(config, trace[..n], id)
                && !(trace[n] == Mark(id, true) && before.sending && before.registry.fanout.Idle?))))
  }

  lemma {:induction false} UnsentIff(config: ConfigResponse, trace: seq<Step>, id: AgentId)
    ensures var agent := AgentOf(Run(config, trace), id);
            Unsent(config, trace, id) <==> agent.appliedNumber != |agent.responses|
  {
    if |trace| > 0 {
      var n := |trace| - 1;
      UnsentIff(config, trace[..n], id);
      UnsentStep(config, trace, id);
    }
  }

  lemma {:induction false} UnsentStep(config: ConfigResponse, trace: seq<Step>, id: AgentId)
    requires |trace| > 0
    ensures var n := |trace| - 1;
            var before, after := AgentOf(Run(config, trace[..n]), id), AgentOf(Run(config, trace), id);
            if trace[n] == Restart(id) then after.appliedNumber == |after.responses|
            else if PublishedAt(config, trace, n, id).Some? then after.appliedNumber < |after.responses|
            else if trace[n] == Mark(id, true) && before.sending && before.registry.fanout.Idle? then
              after.appliedNumber == |after.responses|
            else after.appliedNumber == before.appliedNumber && after.responses == before.responses
  {
    var n := |trace| - 1;
    var before := AgentOf(Run(config, trace[..n]), id);
    EtagFollowsIdentity(config, trace[..n], id);
    AgentStep(Run(config, trace[..n]), trace[n], id);
    AppliedNumberBound(before);
    if before.sending { assert AgentCheck(before.responses[|before.responses| - 1]).Ok?; }
  }

  /** No other response carries the reported config. */
  ghost predicate ReportedOnce(agent: Agent) {
    forall k: nat | 1 <= k <= |agent.responses| && k != agent.appliedNumber ::
      ConfigNo(agent, k) != ReportedConfig(agent)
  }

  /** Every carrier holds the config of this number. */
  ghost predicate AllHold(agent: Agent, number: nat) {
    forall i: nat | i < |agent.registry.carriers| :: agent.registry.carriers[i].held == number
  }

  lemma {:induction false} SyncIsNumbers(agent: Agent)
    requires Sound(agent)
    ensures agent.applied.Some? && AllHold(agent, agent.appliedNumber) ==> InSync(agent)
    ensures ReportedOnce(agent) ==> (InSync(agent) <==> agent.applied.Some? && AllHold(agent, agent.appliedNumber))
  {
    if ReportedOnce(agent) && InSync(agent) {
      forall i: nat | i < |agent.registry.carriers|
        ensures agent.registry.carriers[i].held == agent.appliedNumber
      {
        assert HeldConfig(agent, i) == ReportedConfig(agent);
        CarrierNumbersBound(agent, i);
      }
    }
  }

  /** A carrier missed the newest config: a write of it was refused and none taken
      since, or its registration's own write came last, after a fan-out. */
  ghost predicate Missed(steps: seq<C.Step>, i: nat) { C.Overwritten(steps, i) || C.Refused(steps, i) }

  ghost predicate NoneMissed(agent: Agent, steps: seq<C.Step>) {
    forall i: nat | i < |agent.registry.carriers| :: !Missed(steps, i)
  }

  ghost predicate AllMissed(agent: Agent, steps: seq<C.Step>) {
    forall i: nat | i < |agent.registry.carriers| :: Missed(steps, i)
  }

  ghost predicate NoneRefused(agent: Agent, steps: seq<C.Step>) {
    forall i: nat | i < |agent.registry.carriers| :: !C.Refused(steps, i)
  }

  /** Each carrier's own late write came last and put back the config that is still
      reported. */
  ghost predicate AllPutBack(agent: Agent, steps: seq<C.Step>) {
    forall i: nat | i < |agent.registry.carriers| ::
      C.Overwritten(steps, i) && agent.registry.carriers[i].born == agent.appliedNumber
  }

  /** The numbers the carriers hold, from the guards alone. */
  lemma {:induction false} GuardsGiveNumbers(agent: Agent, steps: seq<C.Step>)
    requires agent.registry == C.Run(steps) && C.Quiescent(agent.registry)
    ensures var newest := agent.registry.published;
            && (AllHold(agent, newest) <==> NoneMissed(agent, steps))
            && (forall k: nat | k != newest && AllHold(agent, k) :: AllMissed(agent, steps))
            && (NoneRefused(agent, steps) && agent.appliedNumber != newest ==>
                  (AllHold(agent, agent.appliedNumber) <==> AllPutBack(agent, steps)))
  {
    forall i: nat | i < |agent.registry.carriers|
      ensures agent.registry.carriers[i].held == agent.registry.published <==> !Missed(steps, i)
      ensures var c := agent.registry.carriers[i];
              !C.Refused(steps, i) ==>
                c.held == if C.Overwritten(steps, i) then c.born else agent.registry.published
    {
      C.QuiescentCarriers(steps, i);
    }
  }

  /** On every run, under every interleaving, once no write is outstanding, three
      guards decide whether the kernel runs what the agent reports: the channel took
      the thresholds of the latest config, no write of it was refused, no late write
      came last. Together they give agreement. Conversely, when no other response
      carries the reported config: with the thresholds out, agreement means that no
      carrier missed the newest config; with them not out, that every carrier missed
      it, and without a refused write exactly that every late write happened to put
      the reported config back. */
  lemma {:induction false} SyncedByGuards(config: ConfigResponse, trace: seq<Step>, id: AgentId)
    requires C.Quiescent(AgentOf(Run(config, trace), id).registry)
    ensures var agent, steps := AgentOf(Run(config, trace), id), CarrierSteps(config, trace, id);
            && (agent.applied.Some? && !Unsent(config, trace, id) && NoneMissed(agent, steps) ==> InSync(agent))
            && (ReportedOnce(agent) ==>
                  if !Unsent(config, trace, id) then
                    InSync(agent) <==> agent.applied.Some? && NoneMissed(agent, steps)
                  else
                    && (InSync(agent) ==> AllMissed(agent, steps))
                    && (NoneRefused(agent, steps) ==>
                          (InSync(agent) <==> agent.applied.Some? && AllPutBack(agent, steps))))
  {
    var agent, steps := AgentOf(Run(config, trace), id), CarrierSteps(config, trace, id);
    EtagFollowsIdentity(config, trace, id);
    RegistryIsRun(config, trace, id);
    UnsentIff(config, trace, id);
    SyncIsNumbers(agent);
    GuardsGiveNumbers(agent, steps);
  }

  // ----- one poll, and what polling can repair -----

  lemma {:induction false} LocalSnoc(config: ConfigResponse, trace: seq<Step>, id: AgentId, step: Step)
    requires IsLocal(step) && step.agent == id
    ensures Run(config, trace + [step]).controller == Run(config, trace).controller
    ensures AgentOf(Run(config, trace + [step]), id)
         == Local(AgentOf(Run(config, trace), id), Run(config, trace).controller.config, step)
  {
    RunSnoc(config, trace, step);
    AgentStep(Run(config, trace), step, id);
  }

  /** A poll whose fan-out nothing interrupts is a run of the single steps. */
  lemma {:induction false} PollIsRun(config: ConfigResponse, trace: seq<Step>, id: AgentId, delivery: Delivery,
                                     refused: set<nat>, channelOpen: bool) returns (longer: seq<Step>)
    requires var agent := AgentOf(Run(config, trace), id); !agent.sending && agent.registry.fanout.Idle?
    ensures Run(config, longer).controller == Run(config, trace).controller
    ensures AgentOf(Run(config, longer), id)
         == Poll(AgentOf(Run(config, trace), id), Run(config, trace).controller.config, delivery, refused, channelOpen)
  {
    var agent, f := AgentOf(Run(config, trace), id), Run(config, trace);
    LocalSnoc(config, trace, id, Fetch(id, delivery));
    longer := trace + [Fetch(id, delivery)];
    if Request(agent, f.controller.config, delivery).New? {
      var response := Request(agent, f.controller.config, delivery).response;
      longer := WritesAreRun(config, longer, id, agent.registry, refused);
      LocalSnoc(config, longer, id, Mark(id, channelOpen));
      longer := longer + [Mark(id, channelOpen)];
    }
  }

  lemma {:induction false} WritesAreRun(
    config: ConfigResponse, trace: seq<Step>, id: AgentId, before: C.Registry, refused: set<nat>)
    returns (longer: seq<Step>)
    requires before.fanout.Idle? && AgentOf(Run(config, trace), id).registry == C.Apply(before, C.Publish)
    ensures Run(config, longer).controller == Run(config, trace).controller
    ensures AgentOf(Run(config, longer), id)
         == AgentOf(Run(config, trace), id).(registry := C.FannedOut(before, refused))
  {
    var agent, n := AgentOf(Run(config, trace), id), |before.carriers|;
    longer := trace;
    for i := 0 to n
      invariant Run(config, longer).controller == Run(config, trace).controller
      invariant AgentOf(Run(config, longer), id) == agent.(registry := Partly(before, refused, i))
    {
      LocalSnoc(config, longer, id, Carrier(id, C.FanoutWrite(i !in refused)));
      PartlyStep(before, refused, i);
      longer := longer + [Carrier(id, C.FanoutWrite(i !in refused))];
    }
    assert Partly(before, refused, n) == C.FannedOut(before, refused);
  }

  /** A fan-out that has written the first `i` carriers. */
  ghost function Partly(before: C.Registry, refused: set<nat>, i: nat): C.Registry {
    C.Registry(before.published + 1,
               seq(|before.carriers|, k requires 0 <= k < |before.carriers| =>
                 if k < i then C.Written(before.carriers[k], before.published + 1, k !in refused)
                 else before.carriers[k]),
               C.FanoutFrom(i, |before.carriers|))
  }

  lemma {:induction false} PartlyStep(before: C.Registry, refused: set<nat>, i: nat)
    requires i < |before.carriers|
    ensures C.Apply(Partly(before, refused, i), C.FanoutWrite(i !in refused)) == Partly(before, refused, i + 1)
    ensures Partly(before, refused, 0) == C.Apply(before.(fanout := C.Idle), C.Publish)
  {
  }

  lemma {:induction false} WillFetch(agent: Agent, config: ConfigResponse)
    requires Sound(agent) && AgentCheck(config).Ok?
    requires agent.applied.Some? ==> agent.applied.value.hash != config.configHash
    ensures Request(agent, config, Intact) == New(config)
  {
    HashDecides(agent, config, Intact);
  }

  /** What a poll with a new config leaves behind. */
  lemma {:induction false} NewPoll(
    agent: Agent, config: ConfigResponse, delivery: Delivery, refused: set<nat>, channelOpen: bool)
    requires Request(agent, config, delivery) == New(config) && AgentCheck(config).Ok?
    ensures var n, after := |agent.responses|, Poll(agent, config, delivery, refused, channelOpen);
            && after.responses == agent.responses + [config] && !after.sending
            && after.registry == C.FannedOut(agent.registry, refused)
            && after.appliedNumber == (if channelOpen then n + 1 else agent.appliedNumber)
            && (if channelOpen then after.applied.Some? && after.applied.value.hash == config.configHash
                else after.applied == agent.applied)
            && ConfigNo(after, n + 1) == Some(AgentCheck(config).value)
            && (forall k: nat | k <= n :: ConfigNo(after, k) == ConfigNo(agent, k))
  {
  }

  /** One uninterrupted poll: a new config leaves kernel and report in agreement
      exactly when every carrier ends with the config that is reported then. With
      no refused write that means: the channel is open, or the new config is the
      one already reported. Any other poll changes nothing. */
  lemma {:induction false} PollSyncIff(
    agent: Agent, config: ConfigResponse, delivery: Delivery, refused: set<nat>, channelOpen: bool)
    requires Sound(agent)
    ensures var n, after := |agent.registry.carriers|, Poll(agent, config, delivery, refused, channelOpen);
            if !Request(agent, config, delivery).New? then after == agent
            else
              var c := Some(AgentCheck(config).value);
              var reported := if channelOpen then c else ReportedConfig(agent);
              && (InSync(after) <==>
                    reported.Some? && forall i: nat | i < n :: HeldAfter(agent, c, refused, i) == reported)
              && (n > 0 && (forall i: nat | i < n :: i !in refused) ==>
                    (InSync(after) <==> channelOpen || c == ReportedConfig(agent)))
  {
    HashDecides(agent, config, delivery);
    if Request(agent, config, delivery).New? {
      var after, c := Poll(agent, config, delivery, refused, channelOpen), Some(AgentCheck(config).value);
      NewPollHolds(agent, config, delivery, refused, channelOpen);
      SyncMeans(agent, after, c, refused, if channelOpen then c else ReportedConfig(agent));
    }
  }

  lemma {:induction false} SyncMeans(
    agent: Agent, after: Agent, c: Option<TapioConfig>, refused: set<nat>, reported: Option<TapioConfig>)
    requires |after.registry.carriers| == |agent.registry.carriers| && c.Some?
    requires forall i: nat | i < |agent.registry.carriers| :: HeldConfig(after, i) == HeldAfter(agent, c, refused, i)
    requires ReportedConfig(after) == reported && (after.applied.Some? <==> reported.Some?)
    ensures var n := |agent.registry.carriers|;
            && (InSync(after) <==>
                  reported.Some? && forall i: nat | i < n :: HeldAfter(agent, c, refused, i) == reported)
            && (n > 0 && (forall i: nat | i < n :: i !in refused) ==> (InSync(after) <==> c == reported))
  {
    assert |agent.registry.carriers| > 0 ==> HeldConfig(after, 0) == HeldAfter(agent, c, refused, 0);
  }

  lemma {:induction false} NewPollHolds(
    agent: Agent, config: ConfigResponse, delivery: Delivery, refused: set<nat>, channelOpen: bool)
    requires Sound(agent) && Request(agent, config, delivery) == New(config) && AgentCheck(config).Ok?
    ensures var after, c := Poll(agent, config, delivery, refused, channelOpen), Some(AgentCheck(config).value);
            && |after.registry.carriers| == |agent.registry.carriers|
            && (forall i: nat | i < |agent.registry.carriers| ::
                  HeldConfig(after, i) == HeldAfter(agent, c, refused, i))
            && ReportedConfig(after) == (if channelOpen then c else ReportedConfig(agent))
            && (after.applied.Some? <==> ReportedConfig(after).Some?)
  {
    var after, c := Poll(agent, config, delivery, refused, channelOpen), Some(AgentCheck(config).value);
    NewPoll(agent, config, delivery, refused, channelOpen);
    AppliedNumberBound(agent);
    forall i: nat | i < |agent.registry.carriers| ensures HeldConfig(after, i) == HeldAfter(agent, c, refused, i) {
      CarrierNumbersBound(agent, i);
    }
  }

  /** What a fan-out leaves in a carrier's map. */
  function HeldAfter(agent: Agent, c: Option<TapioConfig>, refused: set<nat>, i: nat): Option<TapioConfig>
    requires i < |agent.registry.carriers|
  {
    if i in refused then HeldConfig(agent, i) else c
  }

  /** Polling with the reported hash still current. */
  lemma {:induction false} IdlePoll(agent: Agent, config: ConfigResponse, step: Step)
    requires Sound(agent) && agent.applied.Some? && agent.applied.value.hash == config.configHash && !agent.sending
    requires step.Fetch? || step.Mark?
    ensures Local(agent, config, step) == agent
  {
    if step.Fetch? { HashDecides(agent, config, step.delivery); }
  }

  /** Once the agent reports the hash the controller holds, polling changes nothing
      any more: whatever the kernel runs then, it keeps. */
  lemma {:induction false} NothingRepairs(config: ConfigResponse, trace: seq<Step>, more: seq<Step>, id: AgentId)
    requires var f := Run(config, trace);
             var agent := AgentOf(f, id);
             agent.applied.Some? && agent.applied.value.hash == f.controller.config.configHash && !agent.sending
    requires forall i | 0 <= i < |more| ::
               !more[i].ReplaceController? && more[i] != Restart(id) && !(more[i].Carrier? && more[i].agent == id)
    ensures AgentOf(Run(config, trace + more), id) == AgentOf(Run(config, trace), id)
    ensures Run(config, trace + more).controller.config == Run(config, trace).controller.config
  {
    if |more| == 0 {
      assert trace + more == trace;
    } else {
      var n := |more| - 1;
      assert trace + more == (trace + more[..n]) + [more[n]];
      NothingRepairs(config, trace, more[..n], id);
      RunSnoc(config, trace + more[..n], more[n]);
      var f := Run(config, trace + more[..n]);
      EtagFollowsIdentity(config, trace + more[..n], id);
      AgentStep(f, more[n], id);
      if more[n].Fetch? || more[n].Mark? { IdlePoll(AgentOf(f, id), f.controller.config, more[n]); }
    }
  }

  // ----- each way to fall out of step -----

  /** A refused write: the config is reported, the carrier keeps its startup config. */
  lemma {:induction false} RefusedWriteIsReported(config: ConfigResponse, id: AgentId) returns (trace: seq<Step>)
    requires AgentCheck(config).Ok?
    ensures var agent := AgentOf(Run(config, trace), id);
            && agent.applied.Some? && agent.applied.value.hash == config.configHash
            && |agent.registry.carriers| == 1 && HeldConfig(agent, 0) == None && !InSync(agent)
  {
    var registered := Registered(config, id);
    var before := AgentOf(Run(config, registered), id);
    WillFetch(before, config);
    NewPoll(before, config, Intact, {0}, true);
    trace := PollIsRun(config, registered, id, Intact, {0}, true);
    assert AgentOf(Run(config, trace), id).registry.carriers[0].held == 0;
  }

  /** One carrier has registered, nothing else has happened. */
  lemma {:induction false} Registered(config: ConfigResponse, id: AgentId) returns (trace: seq<Step>)
    ensures Run(config, trace).controller.config == config && Sound(AgentOf(Run(config, trace), id))
    ensures AgentOf(Run(config, trace), id)
         == UNCONFIGURED.(registry := C.Registry(0, [C.Carrier(0, 0, false)], C.Idle))
  {
    NothingYet(config, id);
    LocalSnoc(config, [], id, Carrier(id, C.Register));
    trace := [] + [Carrier(id, C.Register)];
    EtagFollowsIdentity(config, trace, id);
    assert C.Apply(C.START, C.Register) == C.Registry(0, [C.Carrier(0, 0, false)], C.Idle);
  }

  lemma {:induction false} NothingYet(config: ConfigResponse, id: AgentId)
    ensures Run(config, []) == Fleet(NewInner(config), map[], {}) && AgentOf(Run(config, []), id) == UNCONFIGURED
  {
  }

  /** One registered carrier in step with the first config. */
  lemma {:induction false} CleanStart(config: ConfigResponse, id: AgentId) returns (trace: seq<Step>)
    requires AgentCheck(config).Ok?
    ensures var agent := AgentOf(Run(config, trace), id);
            && Run(config, trace).controller.config == config && Sound(agent) && !agent.sending
            && agent.responses == [config] && agent.appliedNumber == 1
            && agent.registry == C.Registry(1, [C.Carrier(0, 1, false)], C.Idle)
            && agent.applied.Some? && agent.applied.value.hash == config.configHash
  {
    var registered := Registered(config, id);
    var before := AgentOf(Run(config, registered), id);
    WillFetch(before, config);
    NewPoll(before, config, Intact, {}, true);
    trace := PollIsRun(config, registered, id, Intact, {}, true);
    EtagFollowsIdentity(config, trace, id);
  }

  /** The controller's config is replaced. */
  lemma {:induction false} Replaced(config: ConfigResponse, trace: seq<Step>, id: AgentId, next: ConfigResponse)
    ensures Run(config, trace + [ReplaceController(next)]).controller.config == next
    ensures AgentOf(Run(config, trace + [ReplaceController(next)]), id) == AgentOf(Run(config, trace), id)
  {
    RunSnoc(config, trace, ReplaceController(next));
  }

  /** A closed thresholds channel: b reaches the carriers but a stays reported, and
      when the controller returns to a it answers 304. */
  lemma {:induction false} ClosedChannelIsHidden(a: ConfigResponse, b: ConfigResponse, id: AgentId)
    returns (trace: seq<Step>)
    requires AgentCheck(a).Ok? && AgentCheck(b).Ok? && a.configHash != b.configHash
    requires AgentCheck(a).value != AgentCheck(b).value
    ensures var agent := AgentOf(Run(a, trace), id);
            && Run(a, trace).controller.config == a && OutcomeOf(agent, a, Intact, true) == Ok(Unchanged)
            && agent.applied.Some? && agent.applied.value.hash == a.configHash
            && |agent.registry.carriers| == 1
            && HeldConfig(agent, 0) == Some(AgentCheck(b).value) && !InSync(agent)
  {
    trace := CleanStart(a, id);
    Replaced(a, trace, id, b);
    trace := trace + [ReplaceController(b)];
    var agent := AgentOf(Run(a, trace), id);
    WillFetch(agent, b);
    NewPoll(agent, b, Intact, {}, false);
    trace := PollIsRun(a, trace, id, Intact, {}, false);
    Replaced(a, trace, id, a);
    trace := trace + [ReplaceController(a)];
    EtagFollowsIdentity(a, trace, id);
    var last := AgentOf(Run(a, trace), id);
    HashDecides(last, a, Intact);
    assert last.responses == [a, b] && last.registry.carriers[0].held == 2;
  }

  /** A registration's late write: b is reported, the carrier ends with a. */
  lemma {:induction false} LateWriteIsHidden(a: ConfigResponse, b: ConfigResponse, id: AgentId)
    returns (trace: seq<Step>)
    requires AgentCheck(a).Ok? && AgentCheck(b).Ok? && a.configHash != b.configHash
    requires AgentCheck(a).value != AgentCheck(b).value
    ensures var agent := AgentOf(Run(a, trace), id);
            && agent.applied.Some? && agent.applied.value.hash == b.configHash
            && |agent.registry.carriers| == 2
            && HeldConfig(agent, 1) == Some(AgentCheck(a).value) && !InSync(agent)
  {
    trace := SecondCarrier(a, b, id);
    trace := SecondPoll(a, b, trace, id);
    WriteLate(AgentOf(Run(a, trace), id), a, b);
    LocalSnoc(a, trace, id, Carrier(id, C.LateWrite(1, true)));
    trace := trace + [Carrier(id, C.LateWrite(1, true))];
  }

  lemma {:induction false} WriteLate(agent: Agent, a: ConfigResponse, b: ConfigResponse)
    requires AgentCheck(a).Ok? && AgentCheck(b).Ok? && AgentCheck(a).value != AgentCheck(b).value
    requires agent.responses == [a, b] && agent.appliedNumber == 2 && agent.applied.Some?
    requires agent.registry
          == C.Registry(2, [C.Carrier(0, 2, false), C.Carrier(1, 2, true)], C.Idle)
    ensures var after := agent.(registry := C.Apply(agent.registry, C.LateWrite(1, true)));
            |after.registry.carriers| == 2 && HeldConfig(after, 1) == Some(AgentCheck(a).value) && !InSync(after)
  {
    var after := agent.(registry := C.Apply(agent.registry, C.LateWrite(1, true)));
    assert after.registry.carriers[1].held == 1;
    assert HeldConfig(after, 1) != ReportedConfig(after);
  }

  lemma {:induction false} SecondCarrier(a: ConfigResponse, b: ConfigResponse, id: AgentId) returns (trace: seq<Step>)
    requires AgentCheck(a).Ok?
    ensures var agent := AgentOf(Run(a, trace), id);
            && Run(a, trace).controller.config == b && Sound(agent) && !agent.sending && agent.responses == [a]
            && agent.registry == C.Registry(1, [C.Carrier(0, 1, false), C.Carrier(1, 0, true)], C.Idle)
            && agent.applied.Some? && agent.applied.value.hash == a.configHash
  {
    trace := CleanStart(a, id);
    LocalSnoc(a, trace, id, Carrier(id, C.Register));
    trace := trace + [Carrier(id, C.Register)];
    Replaced(a, trace, id, b);
    trace := trace + [ReplaceController(b)];
    EtagFollowsIdentity(a, trace, id);
  }

  /** The second carrier's own write is still to come when b is fanned out. */
  lemma {:induction false} SecondPoll(a: ConfigResponse, b: ConfigResponse, before: seq<Step>, id: AgentId)
    returns (trace: seq<Step>)
    requires AgentCheck(b).Ok? && a.configHash != b.configHash && Run(a, before).controller.config == b
    requires var agent := AgentOf(Run(a, before), id);
             && Sound(agent) && !agent.sending && agent.responses == [a]
             && agent.registry == C.Registry(1, [C.Carrier(0, 1, false), C.Carrier(1, 0, true)], C.Idle)
             && agent.applied.Some? && agent.applied.value.hash == a.configHash
    ensures var agent := AgentOf(Run(a, trace), id);
            && agent.responses == [a, b] && agent.appliedNumber == 2
            && agent.registry == C.Registry(2, [C.Carrier(0, 2, false), C.Carrier(1, 2, true)], C.Idle)
            && agent.applied.Some? && agent.applied.value.hash == b.configHash
  {
    var agent := AgentOf(Run(a, before), id);
    WillFetch(agent, b);
    NewPoll(agent, b, Intact, {}, true);
    FanOutToTwo();
    trace := PollIsRun(a, before, id, Intact, {}, true);
  }

  lemma {:induction false} FanOutToTwo()
    ensures C.FannedOut(C.Registry(1, [C.Carrier(0, 1, false), C.Carrier(1, 0, true)], C.Idle), {})
         == C.Registry(2, [C.Carrier(0, 2, false), C.Carrier(1, 2, true)], C.Idle)
  {
  }
}
