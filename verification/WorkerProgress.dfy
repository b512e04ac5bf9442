/** What the controller sink does with each event it is given: when the worker
    flushes, when it retries, which fate follows which reply, and why events drop. */
module WorkerProgress {
  import opened Decimal
  import opened EventBatching
  import opened ControllerSink
  import opened ControllerDelivery

  // ----- when the worker flushes -----

  /** From `s` to `t` exactly these batches were settled, in this order. */
  ghost predicate SettledNext(s: State, t: State, batches: seq<Batch>) {
    && |t.log| == |s.log| + |batches| && s.log <= t.log
    && (forall i: nat | i < |batches| ::
          t.log[|s.log| + i].events == batches[i] && t.log[|s.log| + i].retry == s.retry)
  }

  ghost predicate RestKept(s: State, t: State) {
    && t.queue == s.queue && t.buffer == s.buffer && t.ledger == s.ledger
    && t.open == s.open && t.capacity == s.capacity && t.retry == s.retry
  }

  lemma {:induction false} AttemptAllSettles(s: State, env: Environment)
    requires WithinBudget(s)
    ensures SettledNext(s, AttemptAll(s, env), [s.pending[0]]) && RestKept(s, AttemptAll(s, env))
    decreases RetryBudget(s.retry) - s.current.value.attempts
  {
    var t := Attempt(s, env.reply(|s.posts|));
    AttemptSettlesOrNot(s, env.reply(|s.posts|));
    if t.current != None {
      AttemptAllSettles(t, env);
      SettledSameStart(s, t, AttemptAll(t, env), [s.pending[0]]);
    }
  }

  lemma {:induction false} AttemptSettlesOrNot(s: State, outcome: Outcome)
    requires WithinBudget(s)
    ensures var t := Attempt(s, outcome);
            && RestKept(s, t)
            && (if t.current == None then SettledNext(s, t, [s.pending[0]])
                else t.log == s.log && t.pending == s.pending && WithinBudget(t)
                     && t.current.value.attempts == s.current.value.attempts + 1)
  {
  }

  lemma {:induction false} SettledSameStart(s: State, m: State, t: State, batches: seq<Batch>)
    requires m.log == s.log && m.retry == s.retry && SettledNext(m, t, batches)
    ensures SettledNext(s, t, batches)
  {
    forall i: nat | i < |batches|
      ensures t.log[|s.log| + i].events == batches[i] && t.log[|s.log| + i].retry == s.retry
    {
      assert t.log[|m.log| + i].events == batches[i];
    }
  }

  lemma {:induction false} SendBatchSettles(s: State, env: Environment)
    requires s.pending != [] && s.current == None
    ensures SettledNext(s, SendBatch(s, env), [s.pending[0]]) && RestKept(s, SendBatch(s, env))
  {
    var begun := Begin(s, env.encodes(|s.log|));
    if begun.current != None { AttemptAllSettles(begun, env); }
  }

  lemma {:induction false} SettledJoins(s: State, m: State, t: State, first: Batch, rest: seq<Batch>)
    requires SettledNext(s, m, [first]) && SettledNext(m, t, rest) && m.retry == s.retry
    ensures SettledNext(s, t, [first] + rest)
  {
    var batches := [first] + rest;
    forall i: nat | i < |batches|
      ensures t.log[|s.log| + i].events == batches[i] && t.log[|s.log| + i].retry == s.retry
    {
      if i == 0 {
        assert t.log[|s.log|] == m.log[|s.log|];
        assert m.log[|s.log| + 0].events == [first][0];
      } else {
        assert t.log[|m.log| + (i - 1)].events == rest[i - 1];
      }
    }
  }

  lemma {:induction false} DrainSettles(s: State, env: Environment)
    requires s.current == None
    ensures SettledNext(s, Drain(s, env), s.pending) && RestKept(s, Drain(s, env))
    decreases |s.pending|
  {
    if s.pending != [] {
      var m := SendBatch(s, env);
      SendBatchSettles(s, env);
      DrainSettles(m, env);
      SettledJoins(s, m, Drain(s, env), s.pending[0], s.pending[1..]);
      assert s.pending == [s.pending[0]] + s.pending[1..];
    }
  }

  predicate IsTurn(step: Step) { step.Receive? || step.Timeout? || step.Disconnect? }

  /** When a turn must flush: the send interval elapsed, a flush was requested, the
      limit is reached, or the channel is closed. */
  predicate MustFlush(queue: seq<Message>, buffered: nat, step: Step) {
    match step
    case Timeout(_, _) => true
    case Disconnect(_, _) => true
    case Receive(limits, _) =>
      queue != [] && (queue[0] == FlushRequest || buffered + 1 >= limits.maxEvents)
    case _ => false
  }

  /** What a turn takes from the queue. */
  function TakenEvents(queue: seq<Message>, step: Step): seq<WireEvent> {
    if step.Receive? && queue != [] && queue[0].Event? then [queue[0].event] else []
  }

  /** Everything that entered is settled or still queued, and what is settled now is
      `kept`, cut into its one greedy partition, retried or not. */
  ghost predicate FlushedAll(s: State, t: State, kept: seq<WireEvent>, limits: Limits, retried: bool) {
    && t.buffer == [] && t.pending == []
    && SettledEvents(t.log) + QueuedEvents(t.queue) == s.ledger.entered
    && s.log <= t.log
    && exists batches :: CutAndSettled(s, t, kept, limits, retried, batches)
  }

  ghost predicate CutAndSettled(
    s: State, t: State, kept: seq<WireEvent>, limits: Limits, retried: bool, batches: seq<Batch>)
  {
    IsSplit(limits, kept, batches) && SettledAs(s, t, batches, retried)
  }

  ghost predicate SettledAs(s: State, t: State, batches: seq<Batch>, retried: bool) {
    && |t.log| == |s.log| + |batches|
    && forall i: nat | i < |batches| ::
         t.log[|s.log| + i].events == batches[i] && (t.log[|s.log| + i].retry <==> retried)
  }

  /** A turn of the worker in any reachable state. When it must flush, everything
      buffered and received is settled: nothing is buffered or under way, and whatever
      entered is settled or still queued; the batches are the one greedy partition of
      what was buffered, retried unless the channel is closed. When it need not,
      nothing is posted or settled. */
  lemma {:induction false} TurnFlushesWhenDue(capacity: nat, trace: seq<Step>, step: Step, env: Environment)
    requires IsRun(capacity, trace) && IsTurn(step) && Possible(Run(capacity, trace), step)
    ensures var s := Run(capacity, trace);
            var t := Drain(Apply(s, step), env);
            var kept := s.buffer + TakenEvents(s.queue, step);
            && t.queue == (if step.Receive? then s.queue[1..] else s.queue) && t.ledger == s.ledger
            && (if MustFlush(s.queue, |s.buffer|, step) then FlushedAll(s, t, kept, step.limits, !step.Disconnect?)
                else t.log == s.log && t.posts == s.posts && t.buffer == kept && t.pending == [])
  {
    var s := Run(capacity, trace);
    var started := Apply(s, step);
    DrainSettles(started, env);
    if MustFlush(s.queue, |s.buffer|, step) {
      RunSnoc(capacity, trace, step);
      var longer := DrainIsRun(capacity, trace + [step], env);
      RunKeepsOrder(capacity, longer);
      var t := Drain(started, env);
      TurnSplits(s, step);
      NothingOnTheWay(t);
      NextIsSettledAs(s, started, t, step.batches);
      DueTurn(s, t, s.buffer + TakenEvents(s.queue, step), step.limits, step.batches, !step.Disconnect?);
    } else {
      IdleTurn(s, step);
    }
  }

  lemma {:induction false} NextIsSettledAs(s: State, started: State, t: State, batches: seq<Batch>)
    requires started.log == s.log && SettledNext(started, t, batches)
    ensures s.log <= t.log && SettledAs(s, t, batches, started.retry)
  {
    forall i: nat | i < |batches|
      ensures t.log[|s.log| + i].events == batches[i] && (t.log[|s.log| + i].retry <==> started.retry)
    {
      assert t.log[|started.log| + i].events == batches[i];
    }
  }

  lemma {:induction false} DueTurn(
    s: State, t: State, kept: seq<WireEvent>, limits: Limits, batches: seq<Batch>, retried: bool)
    requires s.log <= t.log && SettledAs(s, t, batches, retried) && IsSplit(limits, kept, batches)
    requires t.buffer == [] && t.pending == [] && t.ledger == s.ledger
    requires SettledEvents(t.log) + QueuedEvents(t.queue) == t.ledger.entered
    ensures FlushedAll(s, t, kept, limits, retried)
  {
    assert CutAndSettled(s, t, kept, limits, retried, batches);
  }

  lemma {:induction false} IdleTurn(s: State, step: Step)
    requires IsTurn(step) && Possible(s, step) && !MustFlush(s.queue, |s.buffer|, step)
    ensures var t := Apply(s, step);
            && t.log == s.log && t.posts == s.posts && t.pending == [] && t.current == None
            && t.buffer == s.buffer + TakenEvents(s.queue, step)
  {
    assert s.buffer + [] == s.buffer;
  }

  lemma {:induction false} TurnSplits(s: State, step: Step)
    requires IsTurn(step) && Possible(s, step) && MustFlush(s.queue, |s.buffer|, step)
    ensures IsSplit(step.limits, s.buffer + TakenEvents(s.queue, step), step.batches)
    ensures Apply(s, step).pending == step.batches && Apply(s, step).buffer == []
    ensures Apply(s, step).log == s.log && Apply(s, step).ledger == s.ledger
    ensures Apply(s, step).retry <==> !step.Disconnect?
  {
    assert s.buffer + [] == s.buffer;
  }

  lemma {:induction false} NothingOnTheWay(t: State)
    requires Ordered(t) && t.pending == [] && t.buffer == []
    ensures SettledEvents(t.log) + QueuedEvents(t.queue) == t.ledger.entered
  {
    var settled := SettledEvents(t.log);
    assert settled + [] + [] == settled;
  }

  // ----- retries stop with the final flush -----

  /** How many batches were settled when the closed channel was first seen. */
  ghost function FinalFrom(capacity: nat, trace: seq<Step>): Option<nat>
    requires IsRun(capacity, trace)
  {
    if |trace| == 0 then None
    else
      var before := trace[..|trace| - 1];
      if FinalFrom(capacity, before).Some? then FinalFrom(capacity, before)
      else if trace[|trace| - 1].Disconnect? then Some(|Run(capacity, before).log|)
      else None
  }

  ghost predicate RetriesUntil(s: State, final: Option<nat>) {
    match final
    case None => s.retry && forall i: nat | i < |s.log| :: s.log[i].retry
    case Some(k) =>
      && k <= |s.log| && !s.retry && !s.open && s.queue == []
      && forall i: nat | i < |s.log| :: s.log[i].retry <==> i < k
  }

  /** Batches are retried exactly until the worker sees the closed channel. */
  lemma {:induction false} RetriesStopAtTheEnd(capacity: nat, trace: seq<Step>)
    requires IsRun(capacity, trace)
    ensures RetriesUntil(Run(capacity, trace), FinalFrom(capacity, trace))
  {
    if |trace| > 0 {
      var before, step := trace[..|trace| - 1], trace[|trace| - 1];
      RetriesStopAtTheEnd(capacity, before);
      LogExtends(Run(capacity, before), step);
      RetryStep(Run(capacity, before), step, FinalFrom(capacity, before));
    }
  }

  lemma {:induction false} LogExtends(s: State, step: Step)
    requires Possible(s, step)
    ensures var t := Apply(s, step);
            || t.log == s.log
            || (|t.log| == |s.log| + 1 && t.log[..|s.log|] == s.log && t.log[|s.log|].retry == s.retry)
  {
  }

  lemma {:induction false} RetryStep(s: State, step: Step, final: Option<nat>)
    requires Possible(s, step) && RetriesUntil(s, final)
    ensures RetriesUntil(Apply(s, step),
                         if final.Some? then final else if step.Disconnect? then Some(|s.log|) else None)
  {
    var t := Apply(s, step);
    LogExtends(s, step);
    if t.log != s.log {
      forall i: nat | i < |s.log| ensures t.log[i] == s.log[i] { assert t.log[..|s.log|][i] == t.log[i]; }
    }
  }

  // ----- which fate follows which reply -----

  function CountSteps(trace: seq<Step>, counts: Step -> bool): nat {
    if |trace| == 0 then 0
    else CountSteps(trace[..|trace| - 1], counts) + (if counts(trace[|trace| - 1]) then 1 else 0)
  }

  function AcceptedPosts(posts: seq<Post>): nat {
    if |posts| == 0 then 0 else AcceptedPosts(posts[..|posts| - 1]) + (if posts[|posts| - 1].accepted then 1 else 0)
  }

  const POSTED: Step -> bool := (step: Step) => step.Try?
  const GOOD: Step -> bool := (step: Step) => step == Try(GoodReply)
  const MALFORMED: Step -> bool :=
    (step: Step) => step == Try(MalformedReply(true)) || step == Try(MalformedReply(false))
  const ACCEPTED: Step -> bool :=
    (step: Step) => step == Try(GoodReply) || step == Try(MalformedReply(true)) || step == Try(Refused(true))

  /** Every attempt is one post; every good reply acknowledges one batch and every
      malformed 2xx reply ends one at once, unretried; and the controller accepted
      exactly the posts it took. */
  lemma {:induction false} RepliesDecideFates(capacity: nat, trace: seq<Step>)
    requires IsRun(capacity, trace)
    ensures var s := Run(capacity, trace);
            && |s.posts| == CountSteps(trace, POSTED)
            && AcceptedPosts(s.posts) == CountSteps(trace, ACCEPTED)
            && BatchesWith(s.log, Acked) == CountSteps(trace, GOOD)
            && BatchesWith(s.log, BadResponse) == CountSteps(trace, MALFORMED)
  {
    if |trace| > 0 {
      RepliesDecideFates(capacity, trace[..|trace| - 1]);
      ReplyCounts(Run(capacity, trace[..|trace| - 1]), trace[|trace| - 1]);
    }
  }

  lemma {:induction false} ReplyCounts(s: State, step: Step)
    requires Possible(s, step)
    ensures var t := Apply(s, step);
            && |t.posts| == |s.posts| + (if POSTED(step) then 1 else 0)
            && AcceptedPosts(t.posts) == AcceptedPosts(s.posts) + (if ACCEPTED(step) then 1 else 0)
            && BatchesWith(t.log, Acked) == BatchesWith(s.log, Acked) + (if GOOD(step) then 1 else 0)
            && BatchesWith(t.log, BadResponse) == BatchesWith(s.log, BadResponse) + (if MALFORMED(step) then 1 else 0)
  {
    var t := Apply(s, step);
    StepShape(s, step);
    if t.posts != s.posts { assert t.posts[..|s.posts|] == s.posts; }
    if t.log != s.log {
      EventsWithAppend(s.log, t.log[|s.log|], Acked);
      EventsWithAppend(s.log, t.log[|s.log|], BadResponse);
    }
  }

  /** What a step adds to the posts and to the log. */
  lemma {:induction false} StepShape(s: State, step: Step)
    requires Possible(s, step)
    ensures var t := Apply(s, step);
            && (if step.Try? then
                  exists post: Post :: t.posts == s.posts + [post] && (post.accepted <==> ACCEPTED(step))
                else t.posts == s.posts)
            && (t.log == s.log || t.log == s.log + [t.log[|s.log|]])
            && (GOOD(step) <==> t.log != s.log && t.log[|s.log|].fate == Acked)
            && (MALFORMED(step) <==> t.log != s.log && t.log[|s.log|].fate == BadResponse)
  {
    if step.Try? {
      var post := Post(s.current.value.sequence, WasAccepted(step.outcome));
      assert Apply(s, step).posts == s.posts + [post];
    }
  }

  // ----- why an event drops -----

  /** The channel is open exactly until the sink closes it; and an event offered then
      enters unless the queue is full, which is the one reason for `queue_full`, a
      closed channel being the one for `worker_stopped`. */
  lemma {:induction false} OfferedEventsGo(capacity: nat, trace: seq<Step>, event: WireEvent)
    requires IsRun(capacity, trace)
    ensures var s, l := Run(capacity, trace), Run(capacity, trace).ledger;
            var t := Apply(s, Offer(event));
            var closed := exists i | 0 <= i < |trace| :: trace[i] == Close;
            && t.ledger.offered == l.offered + [event]
            && t.ledger.workerStopped == l.workerStopped + (if closed then [event] else [])
            && t.ledger.queueFull == l.queueFull + (if !closed && |s.queue| >= capacity then [event] else [])
            && t.ledger.entered == l.entered + (if !closed && |s.queue| < capacity then [event] else [])
            && QueuedEvents(t.queue)
               == QueuedEvents(s.queue) + (if !closed && |s.queue| < capacity then [event] else [])
  {
    OpenUntilClosed(capacity, trace);
    QueuedAppend(Run(capacity, trace).queue, Event(event));
  }

  /** A flush request enters the queue exactly while the channel is open and has room,
      and changes nothing else. */
  lemma {:induction false} FlushRequestsEnter(capacity: nat, trace: seq<Step>)
    requires IsRun(capacity, trace)
    ensures var s := Run(capacity, trace);
            var closed := exists i | 0 <= i < |trace| :: trace[i] == Close;
            Apply(s, RequestFlush)
            == s.(queue := s.queue + (if !closed && |s.queue| < capacity then [FlushRequest] else []))
  {
    OpenUntilClosed(capacity, trace);
    assert Run(capacity, trace).queue + [] == Run(capacity, trace).queue;
  }

  /** The local checks send on exactly the batches whose request encodes and whose events
      are valid, and settle any other at once, unposted and in no metric. */
  lemma {:induction false} ChecksDecide(s: State, encodes: bool)
    requires Possible(s, Take(encodes))
    ensures CheckedAtOnce(s, encodes, Apply(s, Take(encodes)))
  {
    var batch := s.pending[0];
    assert (forall e | e in batch :: e.valid) <==> forall i | 0 <= i < |batch| :: batch[i].valid;
  }

  predicate CheckedAtOnce(s: State, encodes: bool, t: State)
    requires s.pending != []
  {
    var batch := s.pending[0];
    && t.posts == s.posts && t.metrics == s.metrics && t.buffer == s.buffer && t.queue == s.queue
    && (if encodes && batch != [] && (forall i | 0 <= i < |batch| :: batch[i].valid) then
          t.log == s.log && t.pending == s.pending && t.current == Some(Current(s.sequence, 0, 0))
        else
          && t.log == s.log + [Settled(s.sequence, batch, NotSendable, 0, 0, s.retry)]
          && t.pending == s.pending[1..] && t.current == None)
  }

  lemma {:induction false} OpenUntilClosed(capacity: nat, trace: seq<Step>)
    requires IsRun(capacity, trace)
    ensures Run(capacity, trace).open <==> !exists i | 0 <= i < |trace| :: trace[i] == Close
    ensures Run(capacity, trace).capacity == capacity
  {
    if |trace| > 0 {
      var n := |trace| - 1;
      OpenUntilClosed(capacity, trace[..n]);
      StepKeepsDoor(Run(capacity, trace[..n]), trace[n]);
      assert forall i | 0 <= i < n :: trace[..n][i] == trace[i];
      if i :| 0 <= i < n && trace[..n][i] == Close { assert trace[i] == Close; }
    }
  }

  lemma {:induction false} StepKeepsDoor(s: State, step: Step)
    requires Possible(s, step)
    ensures Apply(s, step).capacity == s.capacity && (Apply(s, step).open <==> s.open && step != Close)
  {
  }
}
