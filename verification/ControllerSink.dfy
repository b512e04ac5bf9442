/** The controller sink: a bounded queue fed by the observers, and a worker that
    buffers, cuts and posts batches with one sequence number each. */
module ControllerSink {
  import opened Decimal
  import opened EventBatching
  import opened MachineInt

  const MAX_RETRIES: nat := 3

  datatype Message = Event(event: WireEvent) | FlushRequest

  /** What an attempt came to, and whether the controller accepted it: a reply can
      be lost or garbled after the controller accepted. */
  datatype Outcome = GoodReply | MalformedReply(accepted: bool) | Refused(accepted: bool)

  datatype Fate = Acked | SendFailed | NotSendable | BadResponse

  /** A batch that is done with: how often it was posted, how many of the posts the
      controller accepted, and whether its flush allowed retries. */
  datatype Settled = Settled(
    sequence: nat, events: Batch, fate: Fate, attempts: nat, accepted: nat, retry: bool)

  /** The batch being sent. */
  datatype Current = Current(sequence: nat, attempts: nat, accepted: nat)

  datatype Post = Post(sequence: nat, accepted: bool)

  /** Dropped events by reason, and failed batches. */
  datatype Metrics = Metrics(queueFull: nat, workerStopped: nat, sendFailed: nat, sendFailures: nat)

  function CountFailure(m: Metrics, events: nat): Metrics {
    m.(sendFailed := m.sendFailed + events, sendFailures := m.sendFailures + 1)
  }

  /** Which events went which way at the queue. */
  datatype Ledger = Ledger(
    offered: seq<WireEvent>, entered: seq<WireEvent>, queueFull: seq<WireEvent>, workerStopped: seq<WireEvent>)

  /** `pending` is what remains of the flush under way, the batch being sent first;
      `log`, `posts` and `ledger` are the history. */
  datatype State = State(
    queue: seq<Message>, capacity: nat, open: bool,
    buffer: seq<WireEvent>, pending: seq<Batch>, current: Option<Current>, retry: bool, sequence: nat,
    metrics: Metrics, log: seq<Settled>, posts: seq<Post>, ledger: Ledger)

  function NewState(capacity: nat): State {
    State([], capacity, true, [], [], None, true, 1, Metrics(0, 0, 0, 0), [], [], Ledger([], [], [], []))
  }

  function RetryBudget(retry: bool): nat { if retry then MAX_RETRIES else 0 }

  predicate Sendable(batch: Batch) { |batch| > 0 && forall e | e in batch :: e.valid }

  function WasAccepted(outcome: Outcome): bool {
    match outcome case GoodReply => true case MalformedReply(accepted) => accepted case Refused(accepted) => accepted
  }

  function Settle(s: State, current: Current, fate: Fate): State
    requires s.pending != []
  {
    s.(log := s.log + [Settled(current.sequence, s.pending[0], fate, current.attempts, current.accepted, s.retry)],
       pending := s.pending[1..], current := None)
  }

  /** The worker takes a batch: a fresh sequence number, then local checks.
      `encodes` says that the request's own fields pass them and it serializes. */
  function Begin(s: State, encodes: bool): State
    requires s.pending != [] && s.current == None
  {
    var current := Current(s.sequence, 0, 0);
    var begun := s.(sequence := SatAdd(s.sequence, 1));
    if encodes && Sendable(s.pending[0]) then begun.(current := Some(current)) else Settle(begun, current, NotSendable)
  }

  function Tried(current: Current, outcome: Outcome): Current {
    current.(attempts := current.attempts + 1, accepted := current.accepted + (if WasAccepted(outcome) then 1 else 0))
  }

  /** One attempt to post the current batch. */
  function Attempt(s: State, outcome: Outcome): State
    requires s.pending != [] && s.current.Some?
  {
    var tried := Tried(s.current.value, outcome);
    var posted := s.(posts := s.posts + [Post(tried.sequence, WasAccepted(outcome))]);
    match outcome
    case GoodReply => Settle(posted, tried, Acked)
    case MalformedReply(_) => Settle(posted, tried, BadResponse)
    case Refused(_) =>
      if tried.attempts > RetryBudget(s.retry) then
        Settle(posted.(metrics := CountFailure(s.metrics, |s.pending[0]|)), tried, SendFailed)
      else posted.(current := Some(tried))
  }

  /** A flush starts: the whole buffer becomes pending batches. */
  function StartFlush(s: State, batches: seq<Batch>, retry: bool): State {
    s.(buffer := [], pending := batches, retry := retry)
  }

  /** `batches` is the one greedy partition of the events. */
  ghost predicate IsSplit(limits: Limits, events: seq<WireEvent>, batches: seq<Batch>) {
    Flatten(batches) == events && AllAdmissible(limits, batches) && Greedy(limits, batches)
  }

  datatype Step =
    | Offer(event: WireEvent)
    | RequestFlush
    | Close
    | Receive(limits: Limits, batches: seq<Batch>)
    | Timeout(limits: Limits, batches: seq<Batch>)
    | Disconnect(limits: Limits, batches: seq<Batch>)
    | Take(encodes: bool)
    | Try(outcome: Outcome)

  /** The buffer once the worker has received the first queued message. */
  function Received(s: State): seq<WireEvent>
    requires s.queue != []
  {
    if s.queue[0].Event? then s.buffer + [s.queue[0].event] else s.buffer
  }

  predicate FlushesOnReceive(s: State, limits: Limits)
    requires s.queue != []
  {
    s.queue[0].FlushRequest? || |Received(s)| >= limits.maxEvents
  }

  predicate Idle(s: State) { s.pending == [] && s.current == None }

  /** The worker receives between flushes; it waits only on an empty queue. */
  ghost predicate Possible(s: State, step: Step) {
    match step
    case Receive(limits, batches) =>
      Idle(s) && s.queue != [] && (FlushesOnReceive(s, limits) ==> IsSplit(limits, Received(s), batches))
    case Timeout(limits, batches) =>
      Idle(s) && s.queue == [] && s.open && IsSplit(limits, s.buffer, batches)
    case Disconnect(limits, batches) =>
      Idle(s) && s.queue == [] && !s.open && IsSplit(limits, s.buffer, batches)
    case Take(_) => s.pending != [] && s.current == None
    case Try(_) => s.pending != [] && s.current.Some?
    case _ => true
  }

  function OfferEvent(s: State, event: WireEvent): State {
    var ledger := s.ledger.(offered := s.ledger.offered + [event]);
    if !s.open then
      s.(metrics := s.metrics.(workerStopped := s.metrics.workerStopped + 1),
         ledger := ledger.(workerStopped := ledger.workerStopped + [event]))
    else if |s.queue| >= s.capacity then
      s.(metrics := s.metrics.(queueFull := s.metrics.queueFull + 1),
         ledger := ledger.(queueFull := ledger.queueFull + [event]))
    else s.(queue := s.queue + [Event(event)], ledger := ledger.(entered := ledger.entered + [event]))
  }

  function ReceiveFirst(s: State, limits: Limits, batches: seq<Batch>): State
    requires s.queue != []
  {
    var received := s.(queue := s.queue[1..], buffer := Received(s));
    if FlushesOnReceive(s, limits) then StartFlush(received, batches, true) else received
  }

  ghost function Apply(s: State, step: Step): State
    requires Possible(s, step)
  {
    match step
    case Offer(event) => OfferEvent(s, event)
    case RequestFlush => if s.open && |s.queue| < s.capacity then s.(queue := s.queue + [FlushRequest]) else s
    case Close => s.(open := false)
    case Receive(limits, batches) => ReceiveFirst(s, limits, batches)
    case Timeout(_, batches) => StartFlush(s, batches, true)
    case Disconnect(_, batches) => StartFlush(s, batches, false)
    case Take(encodes) => Begin(s, encodes)
    case Try(outcome) => Attempt(s, outcome)
  }

  /** A run: each step possible where it is taken. */
  ghost predicate IsRun(capacity: nat, trace: seq<Step>)
    decreases |trace|, 0
  {
    |trace| == 0
    || (IsRun(capacity, trace[..|trace| - 1]) && Possible(Run(capacity, trace[..|trace| - 1]), trace[|trace| - 1]))
  }

  ghost function Run(capacity: nat, trace: seq<Step>): State
    requires IsRun(capacity, trace)
    decreases |trace|, 1
  {
    if |trace| == 0 then NewState(capacity)
    else Apply(Run(capacity, trace[..|trace| - 1]), trace[|trace| - 1])
  }

  lemma RunSnoc(capacity: nat, trace: seq<Step>, step: Step)
    requires IsRun(capacity, trace) && Possible(Run(capacity, trace), step)
    ensures IsRun(capacity, trace + [step])
    ensures Run(capacity, trace + [step]) == Apply(Run(capacity, trace), step)
  {
    assert (trace + [step])[..|trace|] == trace;
  }

  // ----- the worker alone -----

  /** What the network and the encoder will do, by number of post and of batch. */
  datatype Environment = Environment(reply: nat -> Outcome, encodes: nat -> bool)

  predicate WithinBudget(s: State) {
    s.pending != [] && s.current.Some? && s.current.value.attempts <= RetryBudget(s.retry)
  }

  /** Attempts until the batch is settled. */
  function AttemptAll(s: State, env: Environment): (t: State)
    requires WithinBudget(s)
    ensures t.current == None && t.pending == s.pending[1..] && |t.log| == |s.log| + 1
    decreases RetryBudget(s.retry) - s.current.value.attempts
  {
    var t := Attempt(s, env.reply(|s.posts|));
    if t.current == None then t else AttemptAll(t, env)
  }

  function SendBatch(s: State, env: Environment): (t: State)
    requires s.pending != [] && s.current == None
    ensures t.current == None && t.pending == s.pending[1..] && |t.log| == |s.log| + 1
  {
    var begun := Begin(s, env.encodes(|s.log|));
    if begun.current == None then begun else AttemptAll(begun, env)
  }

  function Drain(s: State, env: Environment): (t: State)
    requires s.current == None
    ensures t.current == None && t.pending == [] && |t.log| == |s.log| + |s.pending|
    decreases |s.pending|
  {
    if s.pending == [] then s else Drain(SendBatch(s, env), env)
  }

  /** What the worker does by itself is a run of steps. */
  lemma AttemptAllIsRun(capacity: nat, trace: seq<Step>, env: Environment) returns (longer: seq<Step>)
    requires IsRun(capacity, trace) && WithinBudget(Run(capacity, trace))
    ensures IsRun(capacity, longer) && Run(capacity, longer) == AttemptAll(Run(capacity, trace), env)
    decreases RetryBudget(Run(capacity, trace).retry) - Run(capacity, trace).current.value.attempts
  {
    var s := Run(capacity, trace);
    var step := Try(env.reply(|s.posts|));
    RunSnoc(capacity, trace, step);
    longer := trace + [step];
    if Run(capacity, longer).current != None {
      longer := AttemptAllIsRun(capacity, longer, env);
    }
  }

  lemma SendBatchIsRun(capacity: nat, trace: seq<Step>, env: Environment) returns (longer: seq<Step>)
    requires IsRun(capacity, trace) && Run(capacity, trace).pending != [] && Run(capacity, trace).current == None
    ensures IsRun(capacity, longer) && Run(capacity, longer) == SendBatch(Run(capacity, trace), env)
  {
    var s := Run(capacity, trace);
    var step := Take(env.encodes(|s.log|));
    RunSnoc(capacity, trace, step);
    longer := trace + [step];
    if Run(capacity, longer).current != None {
      longer := AttemptAllIsRun(capacity, longer, env);
    }
  }

  lemma DrainIsRun(capacity: nat, trace: seq<Step>, env: Environment) returns (longer: seq<Step>)
    requires IsRun(capacity, trace) && Run(capacity, trace).current == None
    ensures IsRun(capacity, longer) && Run(capacity, longer) == Drain(Run(capacity, trace), env)
    decreases |Run(capacity, trace).pending|
  {
    longer := trace;
    if Run(capacity, trace).pending != [] {
      longer := SendBatchIsRun(capacity, trace, env);
      longer := DrainIsRun(capacity, longer, env);
    }
  }

  class Worker {
    var queue: seq<Message>
    const capacity: nat
    var open: bool
    var buffer: seq<WireEvent>
    var pending: seq<Batch>
    var current: Option<Current>
    var retry: bool
    var sequence: nat
    var metrics: Metrics
    var log: seq<Settled>
    var posts: seq<Post>
    var ledger: Ledger

    ghost function View(): State
      reads this
    {
      State(queue, capacity, open, buffer, pending, current, retry, sequence, metrics, log, posts, ledger)
    }

    constructor (capacity: nat)
      ensures View() == NewState(capacity)
    {
      this.capacity := capacity;
      queue, open, buffer, pending, current := [], true, [], [], None;
      retry, sequence, metrics, log, posts := true, 1, Metrics(0, 0, 0, 0), [], [];
      ledger := Ledger([], [], [], []);
    }

    method TryEnqueue(event: WireEvent)
      modifies this
      ensures View() == Apply(old(View()), Offer(event))
    {
      ledger := ledger.(offered := ledger.offered + [event]);
      if !open {
        metrics := metrics.(workerStopped := metrics.workerStopped + 1);
        ledger := ledger.(workerStopped := ledger.workerStopped + [event]);
      } else if |queue| >= capacity {
        metrics := metrics.(queueFull := metrics.queueFull + 1);
        ledger := ledger.(queueFull := ledger.queueFull + [event]);
      } else {
        queue := queue + [Event(event)];
        ledger := ledger.(entered := ledger.entered + [event]);
      }
    }

    method SettleFirst(done: Current, fate: Fate)
      requires pending != []
      modifies this
      ensures View() == Settle(old(View()), done, fate)
    {
      log := log + [Settled(done.sequence, pending[0], fate, done.attempts, done.accepted, retry)];
      pending := pending[1..];
      current := None;
    }

    method DropFailedBatch(eventCount: nat)
      modifies this`metrics
      ensures View() == old(View()).(metrics := CountFailure(old(metrics), eventCount))
    {
      metrics := metrics.(sendFailures := metrics.sendFailures + 1);
      metrics := metrics.(sendFailed := metrics.sendFailed + eventCount);
    }

    /** The body of the retry loop. */
    method PostOnce(outcome: Outcome, last: bool)
      requires WithinBudget(View()) && (last <==> current.value.attempts == RetryBudget(retry))
      modifies this
      ensures View() == Attempt(old(View()), outcome)
    {
      var tried := Tried(current.value, outcome);
      posts := posts + [Post(tried.sequence, WasAccepted(outcome))];
      match outcome {
        case GoodReply => SettleFirst(tried, Acked);
        case MalformedReply(_) => SettleFirst(tried, BadResponse);
        case Refused(_) =>
          if last {
            DropFailedBatch(|pending[0]|);
            SettleFirst(tried, SendFailed);
          } else {
            current := Some(tried);
          }
      }
    }

    method SendEventBatchWithRetries(env: Environment)
      requires pending != [] && current == None
      modifies this
      ensures View() == SendBatch(old(View()), env)
    {
      var number := sequence;
      var encodes := env.encodes(|log|);
      sequence := SatAdd(sequence, 1);
      if !(encodes && Sendable(pending[0])) {
        SettleFirst(Current(number, 0, 0), NotSendable);
        return;
      }
      current := Some(Current(number, 0, 0));
      AttemptUntilSettled(env);
    }

    /** The retry loop. */
    method AttemptUntilSettled(env: Environment)
      requires WithinBudget(View()) && current.value.attempts == 0
      modifies this
      ensures View() == AttemptAll(old(View()), env)
    {
      ghost var target := AttemptAll(View(), env);
      var maxRetries := if retry then MAX_RETRIES else 0;
      var attempt := 0;
      while true
        invariant attempt <= maxRetries == RetryBudget(retry)
        invariant WithinBudget(View()) && current.value.attempts == attempt
        invariant AttemptAll(View(), env) == target
        decreases maxRetries - attempt
      {
        PostOnce(env.reply(|posts|), attempt == maxRetries);
        if current == None { return; }
        attempt := attempt + 1;
      }
    }

    method FlushBuffer(limits: Limits, retry: bool, env: Environment) returns (batches: seq<Batch>)
      requires Idle(View()) && limits.emptyLen <= U64_MAX
      modifies this
      ensures IsSplit(limits, old(buffer), batches)
      ensures View() == Drain(StartFlush(old(View()), batches, retry), env)
    {
      this.retry := retry;
      batches := [];
      if buffer == [] {
        return;
      }
      batches := SplitEventsBySize(buffer, limits);
      buffer := [];
      pending := batches;
      ghost var target := Drain(View(), env);
      while pending != []
        invariant current == None && Drain(View(), env) == target
        decreases |pending|
      {
        SendEventBatchWithRetries(env);
      }
    }

    /** One turn of the worker's loop; `false` when it ends. */
    method Turn(limits: Limits, env: Environment) returns (step: Step, goesOn: bool)
      requires Idle(View()) && limits.emptyLen <= U64_MAX
      modifies this
      ensures Possible(old(View()), step) && View() == Drain(Apply(old(View()), step), env)
      ensures goesOn <==> old(queue) != [] || old(open)
      ensures match step case Receive(l, _) => l == limits case Timeout(l, _) => l == limits
                         case Disconnect(l, _) => l == limits case _ => false
    {
      goesOn := true;
      var batches: seq<Batch> := [];
      if queue != [] {
        var message := queue[0];
        queue := queue[1..];
        match message {
          case Event(event) =>
            buffer := buffer + [event];
            if |buffer| >= limits.maxEvents {
              batches := FlushBuffer(limits, true, env);
            }
          case FlushRequest =>
            batches := FlushBuffer(limits, true, env);
        }
        step := Receive(limits, batches);
      } else if open {
        batches := FlushBuffer(limits, true, env);
        step := Timeout(limits, batches);
      } else {
        batches := FlushBuffer(limits, false, env);
        step := Disconnect(limits, batches);
        goesOn := false;
      }
    }
  }
}
