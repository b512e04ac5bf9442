/** The controller's registry: agents, their last heartbeats, the convergence
    report, and the accounting of event batches. */
module Controller {
  import opened Decimal
  import opened ConfigCompiler
  import opened SequenceTracking
  import opened EventBatching
  import opened MachineInt

  type AgentId = string

  datatype Heartbeat = Heartbeat(agentId: AgentId, configVersion: string, configHash: string)

  /** `framed` says that the wire version and the identifiers are in order. */
  datatype EventBatch = EventBatch(agentId: AgentId, sequence: nat, framed: bool, events: seq<WireEvent>)

  predicate ValidBatch(batch: EventBatch, maxBatchEvents: nat) {
    batch.framed && 0 < |batch.events| <= maxBatchEvents && forall e | e in batch.events :: e.valid
  }

  datatype Inner = Inner(
    config: ConfigResponse,
    agents: set<AgentId>,
    heartbeats: map<AgentId, Heartbeat>,
    sequences: map<AgentId, Tracking>,
    acceptedEvents: nat, rejectedEvents: nat, batchesAccepted: nat, batchesRejected: nat)

  function NewInner(config: ConfigResponse): Inner { Inner(config, {}, map[], map[], 0, 0, 0, 0) }

  function Register(s: Inner, agent: AgentId): Inner {
    s.(agents := s.agents + {agent}, sequences := s.sequences[agent := FRESH])
  }

  function StoreHeartbeat(s: Inner, heartbeat: Heartbeat): Inner {
    s.(heartbeats := s.heartbeats[heartbeat.agentId := heartbeat])
  }

  function TrackingOf(s: Inner, agent: AgentId): Tracking {
    if agent in s.sequences then s.sequences[agent] else FRESH
  }

  function RecordBatch(s: Inner, batch: EventBatch): Inner {
    if ValidBatch(batch, s.config.maxBatchEvents) then
      s.(acceptedEvents := s.acceptedEvents + |batch.events|, batchesAccepted := s.batchesAccepted + 1,
         sequences := s.sequences[batch.agentId := Track(TrackingOf(s, batch.agentId), batch.sequence)])
    else
      s.(rejectedEvents := s.rejectedEvents + |batch.events|, batchesRejected := s.batchesRejected + 1)
  }

  /** Registered agents whose last heartbeat does not report the target hash. */
  function Unconverged(s: Inner, targetHash: string): set<AgentId> {
    set a | a in s.agents && (a !in s.heartbeats || s.heartbeats[a].configHash != targetHash)
  }

  /** `framed` says that the request passes the wire checks. */
  datatype Call =
    | Hello(agent: AgentId, framed: bool)
    | Events(batch: EventBatch)
    | Beat(heartbeat: Heartbeat, framed: bool)

  function Serve(s: Inner, call: Call): Inner {
    match call
    case Hello(agent, framed) => if framed then Register(s, agent) else s
    case Events(batch) => RecordBatch(s, batch)
    case Beat(heartbeat, framed) => if framed then StoreHeartbeat(s, heartbeat) else s
  }

  class ControllerState {
    var config: ConfigResponse
    var agents: set<AgentId>
    var heartbeats: map<AgentId, Heartbeat>
    var sequences: map<AgentId, Tracking>
    var acceptedEvents: nat
    var rejectedEvents: nat
    var batchesAccepted: nat
    var batchesRejected: nat

    ghost function View(): Inner
      reads this
    {
      Inner(config, agents, heartbeats, sequences, acceptedEvents, rejectedEvents, batchesAccepted, batchesRejected)
    }

    constructor (config: ConfigResponse)
      ensures View() == NewInner(config)
    {
      this.config := config;
      agents, heartbeats, sequences := {}, map[], map[];
      acceptedEvents, rejectedEvents, batchesAccepted, batchesRejected := 0, 0, 0, 0;
    }

    /** `framed` says that the hello passes the wire checks. */
    method RegisterAgent(agent: AgentId, framed: bool) returns (accepted: bool)
      modifies this`agents, this`sequences
      ensures accepted <==> framed
      ensures View() == Serve(old(View()), Hello(agent, framed))
    {
      accepted := framed;
      if !framed {
        return;
      }
      agents := agents + {agent};
      sequences := sequences[agent := FRESH];
    }

    /** An accepted heartbeat is answered with the current config version. */
    method RecordHeartbeat(heartbeat: Heartbeat, framed: bool) returns (nextConfigVersion: Option<string>)
      modifies this`heartbeats
      ensures View() == Serve(old(View()), Beat(heartbeat, framed))
      ensures nextConfigVersion == if framed then Some(config.version) else None
    {
      if !framed {
        return None;
      }
      nextConfigVersion := Some(config.version);
      heartbeats := heartbeats[heartbeat.agentId := heartbeat];
    }

    method RecordEventBatch(batch: EventBatch) returns (accepted: bool)
      modifies this
      ensures View() == Serve(old(View()), Events(batch))
      ensures accepted <==> ValidBatch(batch, old(config.maxBatchEvents))
    {
      accepted := ValidBatch(batch, config.maxBatchEvents);
      if accepted {
        acceptedEvents := acceptedEvents + |batch.events|;
        batchesAccepted := batchesAccepted + 1;
        UpdateSequenceTracking(batch.agentId, batch.sequence);
      } else {
        rejectedEvents := rejectedEvents + |batch.events|;
        batchesRejected := batchesRejected + 1;
      }
    }

    method UpdateSequenceTracking(agent: AgentId, sequence: nat)
      modifies this`sequences
      ensures sequences == old(sequences)[agent := Track(TrackingOf(old(View()), agent), sequence)]
    {
      var t := if agent in sequences then sequences[agent] else FRESH;
      if t.lastSeen == None {
        t := t.(lastSeen := Some(sequence));
      } else {
        var expected := SatAdd(t.lastSeen.value, 1);
        if sequence == expected {
          t := t.(lastSeen := Some(sequence));
        } else if sequence > expected {
          t := t.(gapsTotal := SatAdd(t.gapsTotal, SatSub(sequence, expected)),
                  lastSeen := Some(sequence));
        } else {
          t := t.(regressionsTotal := SatAdd(t.regressionsTotal, 1));
        }
      }
      sequences := sequences[agent := t];
    }
  }

  // ----- runs of one hello epoch -----

  function ServeAll(s: Inner, calls: seq<Call>): Inner {
    if |calls| == 0 then s else Serve(ServeAll(s, calls[..|calls| - 1]), calls[|calls| - 1])
  }

  /** The sequence numbers of one agent's valid batches since its last accepted hello. */
  function Epoch(config: ConfigResponse, calls: seq<Call>, agent: AgentId): seq<nat> {
    if |calls| == 0 then []
    else
      var before := Epoch(config, calls[..|calls| - 1], agent);
      match calls[|calls| - 1]
      case Hello(a, framed) => if a == agent && framed then [] else before
      case Events(batch) =>
        if batch.agentId == agent && ValidBatch(batch, config.maxBatchEvents) then before + [batch.sequence] else before
      case Beat(_, _) => before
  }

  /** Whatever else the controller serves, an agent's accounting depends only on
      its own valid batches since its last accepted hello. */
  lemma {:induction false} EpochAccounting(config: ConfigResponse, calls: seq<Call>, agent: AgentId)
    ensures TrackingOf(ServeAll(NewInner(config), calls), agent) == TrackAll(Epoch(config, calls, agent))
    ensures ServeAll(NewInner(config), calls).config == config
  {
    if |calls| > 0 {
      var before := calls[..|calls| - 1];
      EpochAccounting(config, before, agent);
      match calls[|calls| - 1]
      case Events(batch) =>
        var epoch := Epoch(config, before, agent);
        assert (epoch + [batch.sequence])[..|epoch|] == epoch;
      case _ =>
    }
  }

  // ----- what the controller accepts, and its totals -----

  /** A request in order, with at least one and at most `most` events, none of which
      breaks the wire rules. */
  predicate InOrder(batch: EventBatch, most: nat) {
    && batch.framed && 1 <= |batch.events| <= most
    && forall i | 0 <= i < |batch.events| :: batch.events[i].valid
  }

  function CountBatches(calls: seq<Call>, most: nat, inOrder: bool): nat {
    if |calls| == 0 then 0
    else
      var last := calls[|calls| - 1];
      CountBatches(calls[..|calls| - 1], most, inOrder)
      + (if last.Events? && InOrder(last.batch, most) == inOrder then 1 else 0)
  }

  function CountEvents(calls: seq<Call>, most: nat, inOrder: bool): nat {
    if |calls| == 0 then 0
    else
      var last := calls[|calls| - 1];
      CountEvents(calls[..|calls| - 1], most, inOrder)
      + (if last.Events? && InOrder(last.batch, most) == inOrder then |last.batch.events| else 0)
  }

  lemma {:induction false} ValidIsInOrder(batch: EventBatch, most: nat)
    ensures ValidBatch(batch, most) <==> InOrder(batch, most)
  {
    if InOrder(batch, most) {
      forall e | e in batch.events ensures e.valid {
        var i :| 0 <= i < |batch.events| && batch.events[i] == e;
      }
    }
  }

  /** Over any calls the four totals are those of the batches in order and of the
      others, under the limit of the controller's own config. */
  lemma {:induction false} TotalsAddUp(config: ConfigResponse, calls: seq<Call>)
    ensures var s, most := ServeAll(NewInner(config), calls), config.maxBatchEvents;
            && s.batchesAccepted == CountBatches(calls, most, true)
            && s.batchesRejected == CountBatches(calls, most, false)
            && s.acceptedEvents == CountEvents(calls, most, true)
            && s.rejectedEvents == CountEvents(calls, most, false)
            && s.config == config
  {
    if |calls| > 0 {
      var last := calls[|calls| - 1];
      TotalsAddUp(config, calls[..|calls| - 1]);
      if last.Events? { ValidIsInOrder(last.batch, config.maxBatchEvents); }
    }
  }

  // ----- what the registries keep -----

  /** The last heartbeat of an agent that passed the wire checks. */
  function LastBeat(calls: seq<Call>, agent: AgentId): Option<Heartbeat> {
    if |calls| == 0 then None
    else match calls[|calls| - 1]
         case Beat(heartbeat, true) =>
           if heartbeat.agentId == agent then Some(heartbeat) else LastBeat(calls[..|calls| - 1], agent)
         case _ => LastBeat(calls[..|calls| - 1], agent)
  }

  /** Over any calls exactly the agents of accepted hellos are registered, and of every
      agent, registered or not, the last accepted heartbeat is kept. */
  lemma {:induction false} RegistriesKeepLast(config: ConfigResponse, calls: seq<Call>, agent: AgentId)
    ensures var s := ServeAll(NewInner(config), calls);
            && (agent in s.agents <==> exists i | 0 <= i < |calls| :: calls[i] == Hello(agent, true))
            && LastBeat(calls, agent) == (if agent in s.heartbeats then Some(s.heartbeats[agent]) else None)
  {
    if |calls| > 0 {
      var n := |calls| - 1;
      RegistriesKeepLast(config, calls[..n], agent);
      if i :| 0 <= i < n && calls[..n][i] == Hello(agent, true) { assert calls[i] == Hello(agent, true); }
      if i :| 0 <= i < n && calls[i] == Hello(agent, true) { assert calls[..n][i] == Hello(agent, true); }
    }
  }
}
