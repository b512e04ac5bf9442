/** From hashes back to configs: when every controller serves compiled configs under one
    injective digest, what agents report and what 304 confirms is the config itself. */
module ConfigIdentity {
  import opened Decimal
  import opened EvidenceProfile
  import opened ConfigCompiler
  import opened Controller
  import opened ConfigPolling
  import opened Convergence

  ghost predicate Injective(digest: CompiledConfig -> string) {
    forall a, b :: digest(a) == digest(b) ==> a == b
  }

  /** A response that serves a compiled config. */
  ghost predicate Served(r: ConfigResponse, digest: CompiledConfig -> string) {
    exists generation: nat :: r == ConfigResponseFromCompiled(r.config, generation, digest)
  }

  /** Equal hashes, equal configs. */
  lemma {:induction false} SameHashSameConfig(r: ConfigResponse, s: ConfigResponse, digest: CompiledConfig -> string)
    requires Injective(digest) && Served(r, digest) && Served(s, digest)
    ensures r.configHash == s.configHash <==> r.config == s.config
  {
    var g: nat :| r == ConfigResponseFromCompiled(r.config, g, digest);
    var h: nat :| s == ConfigResponseFromCompiled(s.config, h, digest);
    HashesTellDigests(r.config, g, s.config, h, digest);
  }

  /** Every controller of the run serves compiled configs. */
  ghost predicate AllServed(config: ConfigResponse, trace: seq<Step>, digest: CompiledConfig -> string) {
    && Served(config, digest)
    && forall i | 0 <= i < |trace| && trace[i].ReplaceController? :: Served(trace[i].config, digest)
  }

  lemma {:induction false} LocalResponses(agent: Agent, config: ConfigResponse, step: Step, r: ConfigResponse)
    requires IsLocal(step) && r in Local(agent, config, step).responses
    ensures r in agent.responses || r == config
  {
  }

  lemma {:induction false} ResponsesAreServed(
    config: ConfigResponse, trace: seq<Step>, digest: CompiledConfig -> string, id: AgentId)
    requires AllServed(config, trace, digest)
    ensures Served(Run(config, trace).controller.config, digest)
    ensures forall r | r in AgentOf(Run(config, trace), id).responses :: Served(r, digest)
  {
    if |trace| > 0 {
      var n := |trace| - 1;
      var f, step := Run(config, trace[..n]), trace[n];
      assert forall i | 0 <= i < n :: trace[..n][i] == trace[i];
      ResponsesAreServed(config, trace[..n], digest, id);
      AgentStep(f, step, id);
      ControllerServes(f, step);
      forall r | r in AgentOf(Run(config, trace), id).responses ensures Served(r, digest) {
        if IsLocal(step) && step.agent == id { LocalResponses(AgentOf(f, id), f.controller.config, step, r); }
      }
    }
  }

  lemma {:induction false} ControllerServes(f: Fleet, step: Step)
    ensures Apply(f, step).controller.config
         == if step.ReplaceController? then step.config else f.controller.config
  {
  }

  /** On every run: an agent reports the controller's hash exactly when the response it
      last marked applied carries the very config the controller holds. */
  lemma {:induction false} ReportedHashIsTheConfig(
    config: ConfigResponse, trace: seq<Step>, digest: CompiledConfig -> string, id: AgentId)
    requires Injective(digest) && AllServed(config, trace, digest)
    requires AgentOf(Run(config, trace), id).applied.Some?
    ensures var f := Run(config, trace);
            var agent := AgentOf(f, id);
            && 0 < agent.appliedNumber <= |agent.responses|
            && (agent.applied.value.hash == f.controller.config.configHash
                <==> agent.responses[agent.appliedNumber - 1].config == f.controller.config.config)
  {
    EtagFollowsIdentity(config, trace, id);
    ResponsesAreServed(config, trace, digest, id);
    HashIsTheConfig(AgentOf(Run(config, trace), id), Run(config, trace).controller.config, digest);
  }

  lemma {:induction false} HashIsTheConfig(agent: Agent, config: ConfigResponse, digest: CompiledConfig -> string)
    requires Sound(agent) && agent.applied.Some? && Injective(digest) && Served(config, digest)
    requires forall r | r in agent.responses :: Served(r, digest)
    ensures 0 < agent.appliedNumber <= |agent.responses|
    ensures agent.applied.value.hash == config.configHash
       <==> agent.responses[agent.appliedNumber - 1].config == config.config
  {
    assert agent.responses[agent.appliedNumber - 1] in agent.responses;
    SameHashSameConfig(agent.responses[agent.appliedNumber - 1], config, digest);
  }

  /** After a poll that ends in 200-applied or 304, the response last marked applied
      carries the very config the controller holds. */
  lemma {:induction false} PollBringsTheConfig(
    agent: Agent, config: ConfigResponse, digest: CompiledConfig -> string, delivery: Delivery,
    refused: set<nat>, channelOpen: bool)
    requires Sound(agent) && Injective(digest) && Served(config, digest)
    requires forall r | r in agent.responses :: Served(r, digest)
    requires OutcomeOf(agent, config, delivery, channelOpen).Ok?
    ensures var after := Poll(agent, config, delivery, refused, channelOpen);
            && 0 < after.appliedNumber <= |after.responses|
            && after.responses[after.appliedNumber - 1].config == config.config
  {
    HashDecides(agent, config, delivery);
    if !Request(agent, config, delivery).New? {
      HashIsTheConfig(agent, config, digest);
    }
  }

  /** An agent missing from the report for the hash of a served config had applied that
      very config when it built its last recorded heartbeat. */
  lemma {:induction false} ConvergedOnTheConfig(
    config: ConfigResponse, trace: seq<Step>, digest: CompiledConfig -> string, id: AgentId, target: ConfigResponse)
    requires Injective(digest) && AllServed(config, trace, digest) && Served(target, digest)
    requires var f := Run(config, trace);
             id in f.controller.agents && id !in Unconverged(f.controller, target.configHash)
    ensures exists i: nat ::
              && HadApplied(config, trace, i, id, target.configHash) && i <= |trace|
              && (var built := AgentOf(Run(config, trace[..i]), id);
                  0 < built.appliedNumber <= |built.responses|
                  && built.responses[built.appliedNumber - 1].config == target.config)
  {
    var g: nat :| target == ConfigResponseFromCompiled(target.config, g, digest);
    HashesTellDigests(target.config, g, target.config, g, digest);
    ConvergedHadApplied(config, trace, id, target.configHash);
    var i: nat :| HadApplied(config, trace, i, id, target.configHash);
    assert forall k | 0 <= k < i :: trace[..i][k] == trace[k];
    EtagFollowsIdentity(config, trace[..i], id);
    ResponsesAreServed(config, trace[..i], digest, id);
    HashIsTheConfig(AgentOf(Run(config, trace[..i]), id), target, digest);
  }
}
