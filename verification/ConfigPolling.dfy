/** Config distribution: ETag polling by the agents and the identity they report. */
module ConfigPolling {
  import opened Decimal
  import opened KernelConfig
  import opened EvidenceProfile
  import opened ConfigCompiler
  import opened Controller

  import C = ConfigCarriers

  datatype Identity = Identity(version: string, hash: string, flags: bv64)

  /** An agent: what it reports, its carrier registry, and, for the statements, the
      responses it has fanned out so far. The registry's publication numbers count
      them from 1; `appliedNumber` is the one last marked applied, `sending` says
      that the last one is still to be marked or given up. */
  datatype Agent = Agent(
    etag: Option<string>, applied: Option<Identity>, configVersion: string,
    registry: C.Registry, responses: seq<ConfigResponse>, appliedNumber: nat, sending: bool)

  const UNCONFIGURED := Agent(None, None, "0", C.START, [], 0, false)

  function Quoted(hash: string): string { "\"" + hash + "\"" }

  predicate IsSpace(c: char) { c == ' ' || '\t' <= c <= '\r' }

  function TrimStart(s: string): string { if s != "" && IsSpace(s[0]) then TrimStart(s[1..]) else s }

  function TrimEnd(s: string): string { if s != "" && IsSpace(s[|s| - 1]) then TrimEnd(s[..|s| - 1]) else s }

  function Trim(s: string): string { TrimEnd(TrimStart(s)) }

  lemma {:induction false} TrimQuoted(hash: string)
    ensures Trim(Quoted(hash)) == Quoted(hash)
  {
    var q := Quoted(hash);
    assert q[0] == '"' && q[|q| - 1] == '"';
  }

  lemma {:induction false} QuotedIsInjective(a: string, b: string)
    ensures Quoted(a) == Quoted(b) <==> a == b
  {
    assert Quoted(a)[1..][..|a|] == a && Quoted(b)[1..][..|b|] == b;
    assert |Quoted(a)| == |a| + 2 && |Quoted(b)| == |b| + 2;
  }

  // ----- one exchange -----

  datatype Reply = NotModified | Body(response: ConfigResponse)

  /** The controller's answer to a conditional request. */
  function Answer(config: ConfigResponse, ifNoneMatch: Option<string>): Reply {
    if ifNoneMatch.Some? && Trim(ifNoneMatch.value) == Quoted(config.configHash) then NotModified else Body(config)
  }

  predicate AllSpace(s: string) { forall c | c in s :: IsSpace(c) }

  lemma {:induction false} TrimStartSplits(s: string) returns (pre: string)
    ensures AllSpace(pre) && s == pre + TrimStart(s)
  {
    pre := "";
    if s != "" && IsSpace(s[0]) {
      var more := TrimStartSplits(s[1..]);
      pre := [s[0]] + more;
      assert s == [s[0]] + s[1..];
    }
  }

  lemma {:induction false} TrimEndSplits(s: string) returns (post: string)
    ensures AllSpace(post) && s == TrimEnd(s) + post
  {
    post := "";
    if s != "" && IsSpace(s[|s| - 1]) {
      var more := TrimEndSplits(s[..|s| - 1]);
      post := more + [s[|s| - 1]];
      assert s == s[..|s| - 1] + [s[|s| - 1]];
    }
  }

  lemma {:induction false} TrimStartDrops(pre: string, body: string)
    requires AllSpace(pre) && body != "" && !IsSpace(body[0])
    ensures TrimStart(pre + body) == body
  {
    if pre == "" {
      assert pre + body == body;
    } else {
      assert forall c | c in pre[1..] :: c in pre;
      TrimStartDrops(pre[1..], body);
      assert (pre + body)[1..] == pre[1..] + body;
    }
  }

  lemma {:induction false} TrimEndDrops(body: string, post: string)
    requires AllSpace(post) && body != "" && !IsSpace(body[|body| - 1])
    ensures TrimEnd(body + post) == body
  {
    if post == "" {
      assert body + post == body;
    } else {
      var shorter := post[..|post| - 1];
      assert forall c | c in shorter :: c in post;
      TrimEndDrops(body, shorter);
      assert (body + post)[..|body + post| - 1] == body + shorter;
    }
  }

  ghost predicate Surrounds(header: string, pre: string, body: string, post: string) {
    AllSpace(pre) && AllSpace(post) && header == pre + (body + post)
  }

  /** The controller answers 304 exactly when the header is the quoted hash of its
      config, with white space around it or none. */
  lemma {:induction false} AnswerIff(config: ConfigResponse, ifNoneMatch: Option<string>)
    ensures var quoted := "\"" + config.configHash + "\"";
            Answer(config, ifNoneMatch)
            == if ifNoneMatch.Some? && exists pre, post :: Surrounds(ifNoneMatch.value, pre, quoted, post)
               then NotModified else Body(config)
  {
    var quoted := Quoted(config.configHash);
    assert quoted[0] == '"' && quoted[|quoted| - 1] == '"';
    if ifNoneMatch.Some? {
      var header := ifNoneMatch.value;
      if Trim(header) == quoted {
        var pre := TrimStartSplits(header);
        var post := TrimEndSplits(TrimStart(header));
        assert Surrounds(header, pre, quoted, post);
      }
      if pre, post :| Surrounds(header, pre, quoted, post) {
        TrimStartDrops(pre, quoted + post);
        TrimEndDrops(quoted, post);
      }
    }
  }

  /** What the agent's transport makes of the answer. */
  datatype Delivery = Intact | TransportError | Undecodable

  datatype FetchError = Transport | Rejected

  datatype PollOutcome = Applied(generation: nat, hash: string, flags: bv64) | Unchanged

  /** What a request brings, before anything is done with it. */
  datatype Fetched = Failed(error: FetchError) | Same | New(response: ConfigResponse)

  function Request(agent: Agent, config: ConfigResponse, delivery: Delivery): Fetched {
    var answer := Answer(config, agent.etag);
    if delivery == TransportError then Failed(Transport)
    else if answer.NotModified? then Same
    else if delivery == Undecodable then Failed(Rejected)
    else if AgentCheck(answer.response).Err? then Failed(Rejected)
    else New(answer.response)
  }

  /** The kernel config of the `number`-th response. */
  function ConfigNo(agent: Agent, number: nat): Option<TapioConfig> {
    if 0 < number <= |agent.responses| && AgentCheck(agent.responses[number - 1]).Ok?
    then Some(AgentCheck(agent.responses[number - 1]).value)
    else None
  }

  /** The locked half of the fan-out of a new response. */
  function Publish(agent: Agent, response: ConfigResponse): Agent {
    agent.(responses := agent.responses + [response], sending := true, registry := C.Apply(agent.registry, C.Publish))
  }

  /** After the fan-out: the thresholds are sent, and only then is the config
      marked applied. Failed carrier writes make no difference here. The channel
      is closed when no observer listens any more. */
  function Finish(agent: Agent, channelOpen: bool): Agent {
    match ConfigNo(agent, |agent.responses|)
    case Some(c) =>
      if !channelOpen then agent.(sending := false)
      else
        var response := agent.responses[|agent.responses| - 1];
        agent.(etag := Some(Quoted(response.configHash)),
               applied := Some(Identity(ToString(c.generation), response.configHash, c.flags)),
               configVersion := ToString(c.generation), appliedNumber := |agent.responses|, sending := false)
    case None => agent.(sending := false)
  }

  function OutcomeOf(agent: Agent, config: ConfigResponse, delivery: Delivery, channelOpen: bool)
    : Result<PollOutcome, FetchError>
  {
    match Request(agent, config, delivery)
    case Failed(error) => Err(error)
    case Same => Ok(Unchanged)
    case New(response) =>
      if !channelOpen then Err(Transport)
      else
        var c := AgentCheck(response).value;
        Ok(Applied(c.generation, response.configHash, c.flags))
  }

  /** One tick of the poll loop whose fan-out nothing interrupts; the kernel
      refuses the writes to the carriers in `refused`. */
  function Poll(agent: Agent, config: ConfigResponse, delivery: Delivery, refused: set<nat>, channelOpen: bool): Agent {
    match Request(agent, config, delivery)
    case New(response) =>
      Finish(agent.(responses := agent.responses + [response], registry := C.FannedOut(agent.registry, refused)),
             channelOpen)
    case _ => agent
  }

  /** The poll loop, the registry it fans out to, and the identity it shares with
      the heartbeat task. */
  class Poller {
    var etag: Option<string>
    var applied: Option<Identity>
    var configVersion: string
    const carriers: C.CarrierRegistry
    ghost var responses: seq<ConfigResponse>
    ghost var appliedNumber: nat

    ghost function View(): Agent
      reads this, carriers
    {
      Agent(etag, applied, configVersion, carriers.View(), responses, appliedNumber, false)
    }

    constructor (carriers: C.CarrierRegistry)
      requires carriers.View() == C.START
      ensures this.carriers == carriers && View() == UNCONFIGURED
    {
      this.carriers := carriers;
      etag, applied, configVersion := None, None, "0";
      responses, appliedNumber := [], 0;
    }

    method Tick(config: ConfigResponse, delivery: Delivery, refused: set<nat>, channelOpen: bool)
      returns (outcome: Result<PollOutcome, FetchError>, failed: seq<nat>)
      requires carriers.fanout.Idle?
      modifies this, carriers
      ensures View() == Poll(old(View()), config, delivery, refused, channelOpen) && carriers.fanout.Idle?
      ensures outcome == OutcomeOf(old(View()), config, delivery, channelOpen)
      ensures forall i | i in failed :: i in refused
    {
      failed := [];
      if delivery == TransportError {
        return Err(Transport), failed;
      }
      var answer := Answer(config, etag);
      if answer.NotModified? {
        return Ok(Unchanged), failed;
      }
      if delivery == Undecodable {
        return Err(Rejected), failed;
      }
      var checked := AgentCheck(answer.response);
      if checked.Err? {
        return Err(Rejected), failed;
      }
      responses := responses + [answer.response];
      failed := carriers.UpdateAll(refused);
      if !channelOpen {
        return Err(Transport), failed;
      }
      var c := checked.value;
      etag := Some(Quoted(answer.response.configHash));
      applied := Some(Identity(ToString(c.generation), answer.response.configHash, c.flags));
      configVersion := ToString(c.generation);
      appliedNumber := |responses|;
      outcome := Ok(Applied(c.generation, answer.response.configHash, c.flags));
    }
  }

  /** What the heartbeat reports of the applied config. */
  function HeartbeatOf(id: AgentId, agent: Agent): Heartbeat {
    match agent.applied
    case None => Heartbeat(id, "0", "")
    case Some(identity) => Heartbeat(id, identity.version, identity.hash)
  }

  // ----- the fleet -----

  datatype Fleet = Fleet(controller: Inner, agents: map<AgentId, Agent>, inFlight: set<Heartbeat>)

  /** A fan-out takes many steps: `Fetch` publishes, `Carrier` is a registration,
      its late write or a single fan-out write, `Mark` sends the thresholds. Other
      steps, of this agent or others, come in between. */
  datatype Step =
    | Fetch(agent: AgentId, delivery: Delivery)
    | Carrier(agent: AgentId, step: C.Step)
    | Mark(agent: AgentId, channelOpen: bool)
    | Build(agent: AgentId)
    | Deliver(heartbeat: Heartbeat)
    | Greet(agent: AgentId)
    | ReplaceController(config: ConfigResponse)
    | Restart(agent: AgentId)

  function AgentOf(f: Fleet, id: AgentId): Agent { if id in f.agents then f.agents[id] else UNCONFIGURED }

  /** What a step does to its own agent; the poll loop does one thing at a time. */
  function Local(agent: Agent, config: ConfigResponse, step: Step): Agent {
    match step
    case Fetch(_, delivery) =>
      if agent.sending || !agent.registry.fanout.Idle? then agent
      else (match Request(agent, config, delivery) case New(response) => Publish(agent, response) case _ => agent)
    case Carrier(_, s) => if s.Publish? then agent else agent.(registry := C.Apply(agent.registry, s))
    case Mark(_, channelOpen) =>
      if agent.sending && agent.registry.fanout.Idle? then Finish(agent, channelOpen) else agent
    case Restart(_) => UNCONFIGURED
    case _ => agent
  }

  predicate IsLocal(step: Step) { step.Fetch? || step.Carrier? || step.Mark? || step.Restart? }

  /** Heartbeats in flight may arrive late, repeatedly, out of order or never. */
  function Apply(f: Fleet, step: Step): Fleet {
    match step
    case Build(id) => f.(inFlight := f.inFlight + {HeartbeatOf(id, AgentOf(f, id))})
    case Deliver(heartbeat) =>
      if heartbeat in f.inFlight then f.(controller := StoreHeartbeat(f.controller, heartbeat)) else f
    case Greet(id) => f.(controller := Register(f.controller, id))
    case ReplaceController(config) => f.(controller := NewInner(config))
    case _ => f.(agents := f.agents[step.agent := Local(AgentOf(f, step.agent), f.controller.config, step)])
  }

  function Run(config: ConfigResponse, trace: seq<Step>): Fleet {
    if |trace| == 0 then Fleet(NewInner(config), map[], {})
    else Apply(Run(config, trace[..|trace| - 1]), trace[|trace| - 1])
  }

  lemma {:induction false} RunSnoc(config: ConfigResponse, trace: seq<Step>, step: Step)
    ensures Run(config, trace + [step]) == Apply(Run(config, trace), step)
  {
    assert (trace + [step])[..|trace|] == trace;
  }

  /** How a step looks from one agent. */
  lemma {:induction false} AgentStep(f: Fleet, step: Step, id: AgentId)
    ensures AgentOf(Apply(f, step), id)
         == if IsLocal(step) && step.agent == id then Local(AgentOf(f, id), f.controller.config, step)
            else AgentOf(f, id)
  {
  }

  /** The identity is that of the response last marked applied, the ETag its quoted
      hash, and the registry numbers the responses. */
  ghost predicate Sound(agent: Agent) {
    && agent.etag == (match agent.applied case None => None case Some(identity) => Some(Quoted(identity.hash)))
    && (match agent.applied
        case None => agent.appliedNumber == 0
        case Some(identity) =>
          && ConfigNo(agent, agent.appliedNumber).Some? && identity.hash != ""
          && identity.hash == agent.responses[agent.appliedNumber - 1].configHash
          && identity.flags == ConfigNo(agent, agent.appliedNumber).value.flags
          && identity.version == ToString(ConfigNo(agent, agent.appliedNumber).value.generation))
    && agent.configVersion == (match agent.applied case None => "0" case Some(identity) => identity.version)
    && (forall r | r in agent.responses :: AgentCheck(r).Ok?)
    && agent.registry.published == |agent.responses|
    && (agent.sending ==> agent.responses != [])
    && (forall c | c in agent.registry.carriers :: c.born <= |agent.responses| && c.held <= |agent.responses|)
  }

  lemma {:induction false} CarrierStepIsSound(agent: Agent, s: C.Step)
    requires Sound(agent) && !s.Publish?
    ensures Sound(agent.(registry := C.Apply(agent.registry, s)))
  {
  }

  lemma {:induction false} PublishKeepsNumbers(agent: Agent, response: ConfigResponse, number: nat)
    requires number <= |agent.responses|
    ensures ConfigNo(Publish(agent, response), number) == ConfigNo(agent, number)
  {
  }

  lemma {:induction false} PublishIsSound(agent: Agent, response: ConfigResponse)
    requires Sound(agent) && AgentCheck(response).Ok? && agent.registry.fanout.Idle?
    ensures Sound(Publish(agent, response))
  {
    PublishKeepsNumbers(agent, response, agent.appliedNumber);
  }

  lemma {:induction false} AcceptedHasHash(response: ConfigResponse)
    requires AgentCheck(response).Ok?
    ensures response.configHash != ""
  {
  }

  lemma {:induction false} FinishIsSound(agent: Agent, channelOpen: bool)
    requires Sound(agent)
    ensures Sound(Finish(agent, channelOpen))
  {
    var n := |agent.responses|;
    if ConfigNo(agent, n).Some? && channelOpen {
      AcceptedHasHash(agent.responses[n - 1]);
      assert ConfigNo(Finish(agent, channelOpen), n) == ConfigNo(agent, n);
    } else {
      assert ConfigNo(Finish(agent, channelOpen), agent.appliedNumber) == ConfigNo(agent, agent.appliedNumber);
    }
  }

  lemma {:induction false} LocalIsSound(agent: Agent, config: ConfigResponse, step: Step)
    requires Sound(agent) && IsLocal(step)
    ensures Sound(Local(agent, config, step))
  {
    match step
    case Fetch(_, delivery) =>
      if Request(agent, config, delivery).New? && !agent.sending && agent.registry.fanout.Idle? {
        PublishIsSound(agent, Request(agent, config, delivery).response);
      }
    case Carrier(_, s) => if !s.Publish? { CarrierStepIsSound(agent, s); }
    case Mark(_, channelOpen) => FinishIsSound(agent, channelOpen);
    case _ =>
  }

  /** Over any interleaving of polls, single writes, controller replacements,
      failures, rejections and restarts, every agent's ETag is the quoted hash of
      its applied identity, which is that of a response it fanned out. */
  lemma {:induction false} EtagFollowsIdentity(config: ConfigResponse, trace: seq<Step>, id: AgentId)
    ensures Sound(AgentOf(Run(config, trace), id))
  {
    if |trace| > 0 {
      var before, step := Run(config, trace[..|trace| - 1]), trace[|trace| - 1];
      EtagFollowsIdentity(config, trace[..|trace| - 1], id);
      AgentStep(before, step, id);
      if IsLocal(step) && step.agent == id { LocalIsSound(AgentOf(before, id), before.controller.config, step); }
    }
  }

  /** Which outcome a poll has, and what a 200 one tells. */
  predicate OutcomeTold(
    agent: Agent, config: ConfigResponse, delivery: Delivery, channelOpen: bool,
    outcome: Result<PollOutcome, FetchError>)
  {
    var same := agent.applied.Some? && agent.applied.value.hash == config.configHash;
    var accepted := AgentCheck(config);
    && (outcome == Ok(Unchanged) <==> delivery != TransportError && same)
    && (outcome == Err(Rejected) <==>
          delivery != TransportError && !same && (delivery == Undecodable || accepted.Err?))
    && (outcome == Err(Transport) <==>
          delivery == TransportError || (delivery == Intact && !same && accepted.Ok? && !channelOpen))
    && (outcome.Ok? && outcome != Ok(Unchanged) ==>
          accepted.Ok? && outcome == Ok(Applied(accepted.value.generation, config.configHash, accepted.value.flags)))
  }

  lemma {:induction false} SaysWhich(agent: Agent, config: ConfigResponse, delivery: Delivery, channelOpen: bool)
    requires Sound(agent)
    ensures OutcomeTold(agent, config, delivery, channelOpen, OutcomeOf(agent, config, delivery, channelOpen))
  {
    HashDecides(agent, config, delivery);
  }

  lemma {:induction false} LeavesIdentity(
    agent: Agent, config: ConfigResponse, delivery: Delivery, refused: set<nat>, channelOpen: bool)
    requires Sound(agent)
    ensures IdentityLeft(agent, config, OutcomeOf(agent, config, delivery, channelOpen),
                         Poll(agent, config, delivery, refused, channelOpen))
  {
    HashDecides(agent, config, delivery);
  }

  /** What a poll leaves behind: the identity it tells of, or the one before. */
  predicate IdentityLeft(
    agent: Agent, config: ConfigResponse, outcome: Result<PollOutcome, FetchError>, after: Agent)
  {
    && (outcome.Ok? ==> after.applied.Some? && after.applied.value.hash == config.configHash)
    && (outcome.Err? ==> after.applied == agent.applied && after.etag == agent.etag
                         && after.configVersion == agent.configVersion)
    && (outcome == Ok(Unchanged) ==> after == agent)
    && (outcome.Ok? && outcome != Ok(Unchanged) ==>
          after.applied == Some(Identity(ToString(outcome.value.generation), outcome.value.hash, outcome.value.flags)))
  }

  /** A poll that ends in 200-applied or 304 leaves the agent with the very hash
      the controller holds; a poll that fails in any way leaves ETag, identity
      and version alone; and an acceptable config that arrives succeeds exactly
      when the thresholds channel is open or nothing is new. */
  lemma {:induction false} PollOutcomes(
    agent: Agent, config: ConfigResponse, delivery: Delivery, refused: set<nat>, channelOpen: bool)
    requires Sound(agent)
    ensures var outcome := OutcomeOf(agent, config, delivery, channelOpen);
            && OutcomeTold(agent, config, delivery, channelOpen, outcome)
            && IdentityLeft(agent, config, outcome, Poll(agent, config, delivery, refused, channelOpen))
    ensures delivery == Intact && AgentCheck(config).Ok? ==>
              (OutcomeOf(agent, config, delivery, channelOpen).Ok?
               <==> channelOpen || (agent.applied.Some? && agent.applied.value.hash == config.configHash))
  {
    SaysWhich(agent, config, delivery, channelOpen);
    LeavesIdentity(agent, config, delivery, refused, channelOpen);
  }

  /** The controller answers 304 exactly to an agent that applied its hash. */
  lemma {:induction false} HashDecides(agent: Agent, config: ConfigResponse, delivery: Delivery)
    requires Sound(agent)
    ensures Answer(config, agent.etag).NotModified?
       <==> agent.applied.Some? && agent.applied.value.hash == config.configHash
    ensures Request(agent, config, delivery).New? ==> Request(agent, config, delivery).response == config
  {
    if agent.applied.Some? {
      TrimQuoted(agent.applied.value.hash);
      QuotedIsInjective(agent.applied.value.hash, config.configHash);
    }
  }
}
