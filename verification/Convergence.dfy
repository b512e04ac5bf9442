/** What the controller may conclude from its convergence report: heartbeats carry
    the identity an agent had when it built them. */
module Convergence {
  import opened Decimal
  import opened ConfigCompiler
  import opened Controller
  import opened ConfigPolling

  /** At step `i` the agent built this heartbeat from the identity it had then. */
  ghost predicate BuiltAt(config: ConfigResponse, trace: seq<Step>, i: nat, heartbeat: Heartbeat) {
    && i < |trace| && trace[i] == Build(heartbeat.agentId)
    && heartbeat == HeartbeatOf(heartbeat.agentId, AgentOf(Run(config, trace[..i]), heartbeat.agentId))
  }

  ghost predicate Built(config: ConfigResponse, trace: seq<Step>, heartbeat: Heartbeat) {
    exists i: nat :: BuiltAt(config, trace, i, heartbeat)
  }

  lemma {:induction false} BuiltStays(config: ConfigResponse, trace: seq<Step>, heartbeat: Heartbeat)
    requires |trace| > 0 && Built(config, trace[..|trace| - 1], heartbeat)
    ensures Built(config, trace, heartbeat)
  {
    var n := |trace| - 1;
    var i: nat :| BuiltAt(config, trace[..n], i, heartbeat);
    assert trace[..n][..i] == trace[..i];
    assert BuiltAt(config, trace, i, heartbeat);
  }

  /** A recorded heartbeat was in flight, and one in flight was built. */
  lemma {:induction false} HeartbeatsMove(f: Fleet, step: Step)
    requires forall a | a in f.controller.heartbeats :: f.controller.heartbeats[a].agentId == a
    ensures forall h | h in Apply(f, step).inFlight ::
              h in f.inFlight || (step == Build(h.agentId) && h == HeartbeatOf(h.agentId, AgentOf(f, h.agentId)))
    ensures var after := Apply(f, step).controller.heartbeats;
            forall a | a in after :: after[a].agentId == a
              && (after[a] in f.inFlight || (a in f.controller.heartbeats && after[a] == f.controller.heartbeats[a]))
  {
  }

  ghost predicate AllBuilt(config: ConfigResponse, trace: seq<Step>, f: Fleet) {
    && (forall h | h in f.inFlight :: Built(config, trace, h))
    && (forall a | a in f.controller.heartbeats ::
          f.controller.heartbeats[a].agentId == a && Built(config, trace, f.controller.heartbeats[a]))
  }

  lemma {:induction false} HeartbeatsWereBuilt(config: ConfigResponse, trace: seq<Step>)
    ensures AllBuilt(config, trace, Run(config, trace))
  {
    if |trace| > 0 {
      var n := |trace| - 1;
      var before, f := Run(config, trace[..n]), Run(config, trace);
      HeartbeatsWereBuilt(config, trace[..n]);
      HeartbeatsMove(before, trace[n]);
      forall h | h in f.inFlight ensures Built(config, trace, h) {
        if h in before.inFlight { BuiltStays(config, trace, h); } else { assert BuiltAt(config, trace, n, h); }
      }
      forall a | a in f.controller.heartbeats ensures Built(config, trace, f.controller.heartbeats[a]) {
        BuiltStays(config, trace, f.controller.heartbeats[a]);
      }
    }
  }

  /** Step `i` built the heartbeat the controller last recorded for the agent, and
      the agent had applied exactly this hash then. */
  ghost predicate HadApplied(config: ConfigResponse, trace: seq<Step>, i: nat, id: AgentId, hash: string) {
    var f := Run(config, trace);
    && id in f.controller.heartbeats && BuiltAt(config, trace, i, f.controller.heartbeats[id])
    && AgentOf(Run(config, trace[..i]), id).applied.Some?
    && AgentOf(Run(config, trace[..i]), id).applied.value.hash == hash
  }

  /** A registered agent missing from the report for a hash had applied it when
      its last recorded heartbeat was built, exactly when the hash is not empty:
      an unconfigured agent reports the empty one. */
  lemma {:induction false} ConvergedHadApplied(config: ConfigResponse, trace: seq<Step>, id: AgentId, hash: string)
    requires var f := Run(config, trace);
             id in f.controller.agents && id !in Unconverged(f.controller, hash)
    ensures (exists i: nat :: HadApplied(config, trace, i, id, hash)) <==> hash != ""
  {
    var f := Run(config, trace);
    HeartbeatsWereBuilt(config, trace);
    assert id in f.controller.heartbeats && f.controller.heartbeats[id].configHash == hash;
    var i: nat :| BuiltAt(config, trace, i, f.controller.heartbeats[id]);
    if hash != "" { assert HadApplied(config, trace, i, id, hash); }
    forall k: nat | HadApplied(config, trace, k, id, hash) ensures hash != "" {
      EtagFollowsIdentity(config, trace[..k], id);
    }
  }

  /** A registered agent that never applied anything is missing from the report for
      the empty hash. */
  lemma {:induction false} EmptyHashHidesUnconfigured(config: ConfigResponse, id: AgentId) returns (trace: seq<Step>)
    ensures var f := Run(config, trace);
            && id in f.controller.agents && id !in Unconverged(f.controller, "")
            && AgentOf(f, id).applied == None
  {
    var heartbeat := Heartbeat(id, "0", "");
    var greeted := [] + [Greet(id)];
    RunSnoc(config, [], Greet(id));
    RunSnoc(config, greeted, Build(id));
    RunSnoc(config, greeted + [Build(id)], Deliver(heartbeat));
    trace := greeted + [Build(id)] + [Deliver(heartbeat)];
  }

  // ----- the report is of the latest heartbeats -----

  /** The heartbeat the controller last received from an agent. */
  ghost function LastReceived(config: ConfigResponse, trace: seq<Step>, id: AgentId): Option<Heartbeat> {
    if |trace| == 0 then None
    else
      var n := |trace| - 1;
      match trace[n]
      case Deliver(h) =>
        if h.agentId == id && h in Run(config, trace[..n]).inFlight then Some(h)
        else LastReceived(config, trace[..n], id)
      case ReplaceController(_) => None
      case _ => LastReceived(config, trace[..n], id)
  }

  /** The agent has said hello to this controller. */
  ghost predicate Greeted(trace: seq<Step>, id: AgentId) {
    |trace| > 0
    && (var n := |trace| - 1;
        match trace[n]
        case Greet(a) => a == id || Greeted(trace[..n], id)
        case ReplaceController(_) => false
        case _ => Greeted(trace[..n], id))
  }

  /** The report for a hash lists exactly the agents that have greeted this controller
      and whose latest heartbeat, if any, reports another hash. */
  lemma {:induction false} ReportIsLatest(config: ConfigResponse, trace: seq<Step>, id: AgentId, hash: string)
    ensures var last := LastReceived(config, trace, id);
            var f := Run(config, trace).controller;
            && (id in f.agents <==> Greeted(trace, id))
            && (if id in f.heartbeats then last == Some(f.heartbeats[id]) else last == None)
            && (id in Unconverged(f, hash) <==> Greeted(trace, id) && (last == None || last.value.configHash != hash))
  {
    if |trace| > 0 {
      ReportIsLatest(config, trace[..|trace| - 1], id, hash);
    }
  }

  /** Version and hash of a heartbeat belong to one response that the agent fanned out,
      or say that it applied none. */
  lemma {:induction false} HeartbeatsTellTheTruth(
    config: ConfigResponse, trace: seq<Step>, i: nat, heartbeat: Heartbeat)
    requires BuiltAt(config, trace, i, heartbeat)
    ensures var agent := AgentOf(Run(config, trace[..i]), heartbeat.agentId);
            if agent.applied == None then heartbeat.configVersion == "0" && heartbeat.configHash == ""
            else
              exists r | r in agent.responses :: AgentCheck(r).Ok? && heartbeat.configHash == r.configHash
                && heartbeat.configVersion == ToString(AgentCheck(r).value.generation)
  {
    var agent := AgentOf(Run(config, trace[..i]), heartbeat.agentId);
    EtagFollowsIdentity(config, trace[..i], heartbeat.agentId);
    if agent.applied.Some? {
      assert agent.responses[agent.appliedNumber - 1] in agent.responses;
    }
  }
}
