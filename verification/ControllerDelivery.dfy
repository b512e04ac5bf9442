/** What every run of the controller sink keeps, from the queue to the
    controller's accounting. */
module ControllerDelivery {
  import opened Decimal
  import opened EventBatching
  import opened ControllerSink
  import opened MachineInt
  import T = SequenceTracking
  import Controller
  import opened ConfigCompiler

  // ----- every event is in one place, in order -----

  function SettledEvents(log: seq<Settled>): seq<WireEvent> {
    if |log| == 0 then [] else SettledEvents(log[..|log| - 1]) + log[|log| - 1].events
  }

  function QueuedEvents(queue: seq<Message>): seq<WireEvent> {
    if |queue| == 0 then []
    else (if queue[0].Event? then [queue[0].event] else []) + QueuedEvents(queue[1..])
  }

  lemma {:induction false} QueuedAppend(queue: seq<Message>, message: Message)
    ensures QueuedEvents(queue + [message]) == QueuedEvents(queue) + (if message.Event? then [message.event] else [])
  {
    if |queue| == 0 {
      assert queue + [message] == [message];
    } else {
      QueuedAppend(queue[1..], message);
      assert (queue + [message])[1..] == queue[1..] + [message];
    }
  }

  lemma {:induction false} SettledAppend(log: seq<Settled>, settled: Settled)
    ensures SettledEvents(log + [settled]) == SettledEvents(log) + settled.events
  {
    assert (log + [settled])[..|log|] == log;
  }

  /** Everything that entered the queue, in order: settled batches, the flush under
      way with the batch being sent first, the buffer, the queue. */
  ghost predicate Ordered(s: State) {
    s.ledger.entered == SettledEvents(s.log) + Flatten(s.pending) + s.buffer + QueuedEvents(s.queue)
  }

  /** The queue's doors: entered, or counted as dropped. */
  ghost predicate Accounted(s: State) {
    && multiset(s.ledger.offered)
       == multiset(s.ledger.entered) + multiset(s.ledger.queueFull) + multiset(s.ledger.workerStopped)
    && s.metrics.queueFull == |s.ledger.queueFull|
    && s.metrics.workerStopped == |s.ledger.workerStopped|
    && s.metrics.sendFailed == |EventsWith(s.log, SendFailed)|
    && s.metrics.sendFailures == BatchesWith(s.log, SendFailed)
  }

  function EventsWith(log: seq<Settled>, fate: Fate): seq<WireEvent> {
    if |log| == 0 then []
    else EventsWith(log[..|log| - 1], fate) + (if log[|log| - 1].fate == fate then log[|log| - 1].events else [])
  }

  function BatchesWith(log: seq<Settled>, fate: Fate): nat {
    if |log| == 0 then 0 else BatchesWith(log[..|log| - 1], fate) + (if log[|log| - 1].fate == fate then 1 else 0)
  }

  lemma {:induction false} EventsWithAppend(log: seq<Settled>, settled: Settled, fate: Fate)
    ensures BatchesWith(log + [settled], fate) == BatchesWith(log, fate) + (if settled.fate == fate then 1 else 0)
    ensures EventsWith(log + [settled], fate)
         == EventsWith(log, fate) + (if settled.fate == fate then settled.events else [])
  {
    assert (log + [settled])[..|log|] == log;
  }

  lemma {:induction false} Regroup<X>(a: seq<X>, b: seq<X>, c: seq<X>, d: seq<X>, e: seq<X>)
    ensures a + (b + c) + d + e == (a + b) + c + d + e
  {
  }

  lemma {:induction false} OfferKeepsOrder(s: State, event: WireEvent)
    requires Ordered(s)
    ensures Ordered(OfferEvent(s, event))
  {
    QueuedAppend(s.queue, Event(event));
    var front, queued := SettledEvents(s.log) + Flatten(s.pending) + s.buffer, QueuedEvents(s.queue);
    assert front + (queued + [event]) == (front + queued) + [event];
  }

  lemma {:induction false} ReceiveKeepsOrder(s: State, limits: Limits, batches: seq<Batch>)
    requires Possible(s, Receive(limits, batches)) && Ordered(s)
    ensures Ordered(ReceiveFirst(s, limits, batches))
  {
    var settled, rest := SettledEvents(s.log), QueuedEvents(s.queue[1..]);
    MoveFirst(settled, s.buffer, if s.queue[0].Event? then [s.queue[0].event] else [], rest);
    assert s.buffer + [] == s.buffer;
  }

  lemma {:induction false} MoveFirst<X>(settled: seq<X>, buffer: seq<X>, first: seq<X>, rest: seq<X>)
    ensures settled + [] + buffer + (first + rest) == settled + [] + (buffer + first) + rest
    ensures settled + [] + buffer + (first + rest) == settled + (buffer + first) + [] + rest
  {
  }

  lemma {:induction false} StartKeepsOrder(s: State, batches: seq<Batch>, retry: bool)
    requires s.pending == [] && s.queue == [] && Flatten(batches) == s.buffer && Ordered(s)
    ensures Ordered(StartFlush(s, batches, retry))
  {
    var settled := SettledEvents(s.log);
    assert settled + [] + s.buffer + [] == settled + s.buffer + [] + [];
  }

  lemma {:induction false} SettleKeepsOrder(s: State, t: State)
    requires s.pending != [] && Ordered(s) && SettlesFirst(s, t)
    ensures Ordered(t)
  {
    assert t.log == s.log + [t.log[|s.log|]];
    SettledAppend(s.log, t.log[|s.log|]);
    Regroup(SettledEvents(s.log), s.pending[0], Flatten(s.pending[1..]), s.buffer, QueuedEvents(s.queue));
  }

  /** From `s` to `t` the first pending batch is settled and no event moves else. */
  ghost predicate SettlesFirst(s: State, t: State)
    requires s.pending != []
  {
    && |t.log| == |s.log| + 1 && t.log[..|s.log|] == s.log && t.log[|s.log|].events == s.pending[0]
    && t.pending == s.pending[1..] && Elsewhere(s, t)
  }

  ghost predicate Elsewhere(s: State, t: State) {
    t.buffer == s.buffer && t.queue == s.queue && t.ledger == s.ledger
  }

  lemma {:induction false} SendSteps(s: State, step: Step)
    requires (step.Take? || step.Try?) && Possible(s, step)
    ensures var t := Apply(s, step);
            SettlesFirst(s, t) || (t.log == s.log && t.pending == s.pending && Elsewhere(s, t))
  {
  }

  lemma {:induction false} StepKeepsOrder(s: State, step: Step)
    requires Possible(s, step) && Ordered(s)
    ensures Ordered(Apply(s, step))
  {
    match step
    case Offer(event) => OfferKeepsOrder(s, event);
    case RequestFlush => QueuedAppend(s.queue, FlushRequest);
    case Close =>
    case Receive(limits, batches) => ReceiveKeepsOrder(s, limits, batches);
    case Timeout(_, batches) => StartKeepsOrder(s, batches, true);
    case Disconnect(_, batches) => StartKeepsOrder(s, batches, false);
    case _ =>
      SendSteps(s, step);
      if Apply(s, step).log != s.log { SettleKeepsOrder(s, Apply(s, step)); }
  }

  /** The failure metrics move with the failed batches. */
  lemma {:induction false} SendCounts(s: State, step: Step)
    requires (step.Take? || step.Try?) && Possible(s, step)
    ensures var t := Apply(s, step);
            && t.ledger == s.ledger
            && t.metrics == (if |t.log| > |s.log| && t.log[|s.log|].fate == SendFailed
                             then CountFailure(s.metrics, |t.log[|s.log|].events|) else s.metrics)
            && (t.log == s.log || t.log == s.log + [t.log[|s.log|]])
  {
  }

  lemma {:induction false} SendKeepsAccounts(s: State, step: Step)
    requires (step.Take? || step.Try?) && Possible(s, step) && Accounted(s)
    ensures Accounted(Apply(s, step))
  {
    var t := Apply(s, step);
    SendCounts(s, step);
    if t.log != s.log { EventsWithAppend(s.log, t.log[|s.log|], SendFailed); }
  }

  lemma {:induction false} OfferKeepsAccounts(s: State, event: WireEvent)
    requires Accounted(s)
    ensures Accounted(OfferEvent(s, event))
  {
  }

  lemma {:induction false} StepKeepsAccounts(s: State, step: Step)
    requires Possible(s, step) && Accounted(s)
    ensures Accounted(Apply(s, step))
  {
    if step.Take? || step.Try? {
      SendKeepsAccounts(s, step);
    } else if step.Offer? {
      OfferKeepsAccounts(s, step.event);
    }
  }

  lemma {:induction false} RunKeepsOrder(capacity: nat, trace: seq<Step>)
    requires IsRun(capacity, trace)
    ensures Ordered(Run(capacity, trace)) && Accounted(Run(capacity, trace))
  {
    if |trace| > 0 {
      var before := trace[..|trace| - 1];
      RunKeepsOrder(capacity, before);
      StepKeepsOrder(Run(capacity, before), trace[|trace| - 1]);
      StepKeepsAccounts(Run(capacity, before), trace[|trace| - 1]);
    }
  }

  /** Settled events by fate: nothing is settled twice or not at all. */
  lemma {:induction false} FatesPartition(log: seq<Settled>)
    ensures multiset(SettledEvents(log))
         == multiset(EventsWith(log, Acked)) + multiset(EventsWith(log, SendFailed))
            + multiset(EventsWith(log, NotSendable)) + multiset(EventsWith(log, BadResponse))
  {
    if |log| > 0 { FatesPartition(log[..|log| - 1]); }
  }

  /** On every run every event offered to the sink is in exactly one place: queued,
      buffered, in the flush under way, acknowledged, lost to a failed check or a
      bad reply, or counted by one of the three drop metrics. */
  lemma {:induction false} EventsConserved(capacity: nat, trace: seq<Step>)
    requires IsRun(capacity, trace)
    ensures var s := Run(capacity, trace);
            && multiset(s.ledger.offered)
               == multiset(QueuedEvents(s.queue)) + multiset(s.buffer) + multiset(Flatten(s.pending))
                  + multiset(EventsWith(s.log, Acked)) + multiset(EventsWith(s.log, NotSendable))
                  + multiset(EventsWith(s.log, BadResponse)) + multiset(EventsWith(s.log, SendFailed))
                  + multiset(s.ledger.queueFull) + multiset(s.ledger.workerStopped)
            && |EventsWith(s.log, SendFailed)| == s.metrics.sendFailed
            && BatchesWith(s.log, SendFailed) == s.metrics.sendFailures
            && |s.ledger.queueFull| == s.metrics.queueFull
            && |s.ledger.workerStopped| == s.metrics.workerStopped
  {
    var s := Run(capacity, trace);
    RunKeepsOrder(capacity, trace);
    FatesPartition(s.log);
  }

  /** After the final flush nothing is left on the way. */
  lemma {:induction false} NothingLeftAtTheEnd(capacity: nat, trace: seq<Step>, env: Environment)
    requires IsRun(capacity, trace) && |trace| > 0 && trace[|trace| - 1].Disconnect?
    ensures var s := Drain(Run(capacity, trace), env);
            && s.queue == [] && s.buffer == [] && s.pending == []
            && SettledEvents(s.log) == s.ledger.entered
            && |s.ledger.offered| == |SettledEvents(s.log)| + s.metrics.queueFull + s.metrics.workerStopped
  {
    var s := Run(capacity, trace);
    var longer := DrainIsRun(capacity, trace, env);
    DrainLeavesQueue(s, env);
    RunKeepsOrder(capacity, longer);
    EndCounts(Drain(s, env));
  }

  lemma {:induction false} EndCounts(s: State)
    requires Ordered(s) && Accounted(s) && s.queue == [] && s.buffer == [] && s.pending == []
    ensures SettledEvents(s.log) == s.ledger.entered
    ensures |s.ledger.offered| == |SettledEvents(s.log)| + s.metrics.queueFull + s.metrics.workerStopped
  {
    assert |multiset(s.ledger.offered)| == |s.ledger.offered|;
  }

  lemma {:induction false} AttemptAllLeavesQueue(s: State, env: Environment)
    requires WithinBudget(s)
    ensures AttemptAll(s, env).queue == s.queue && AttemptAll(s, env).buffer == s.buffer
    decreases RetryBudget(s.retry) - s.current.value.attempts
  {
    var t := Attempt(s, env.reply(|s.posts|));
    if t.current != None { AttemptAllLeavesQueue(t, env); }
  }

  lemma {:induction false} DrainLeavesQueue(s: State, env: Environment)
    requires s.current == None
    ensures Drain(s, env).queue == s.queue && Drain(s, env).buffer == s.buffer
    decreases |s.pending|
  {
    if s.pending != [] {
      var begun := Begin(s, env.encodes(|s.log|));
      if begun.current != None { AttemptAllLeavesQueue(begun, env); }
      DrainLeavesQueue(SendBatch(s, env), env);
    }
  }

  // ----- acknowledged events keep their order -----

  /** `a` is `b` with elements left out. */
  predicate Subsequence<X(==)>(a: seq<X>, b: seq<X>) {
    |a| == 0
    || (|b| > 0 && (Subsequence(a, b[..|b| - 1])
                    || (a[|a| - 1] == b[|b| - 1] && Subsequence(a[..|a| - 1], b[..|b| - 1]))))
  }

  lemma {:induction false} SubsequenceSkips<X>(a: seq<X>, b: seq<X>, more: seq<X>)
    requires Subsequence(a, b)
    ensures Subsequence(a, b + more)
  {
    if |more| == 0 {
      assert b + more == b;
    } else {
      SubsequenceSkips(a, b, more[..|more| - 1]);
      assert (b + more)[..|b + more| - 1] == b + more[..|more| - 1];
    }
  }

  lemma {:induction false} SubsequenceKeeps<X>(a: seq<X>, b: seq<X>, more: seq<X>)
    requires Subsequence(a, b)
    ensures Subsequence(a + more, b + more)
  {
    if |more| == 0 {
      assert a + more == a && b + more == b;
    } else {
      SubsequenceKeeps(a, b, more[..|more| - 1]);
      assert (b + more)[..|b + more| - 1] == b + more[..|more| - 1];
      assert (a + more)[..|a + more| - 1] == a + more[..|more| - 1];
    }
  }

  lemma {:induction false} FateKeepsOrder(log: seq<Settled>, fate: Fate)
    ensures Subsequence(EventsWith(log, fate), SettledEvents(log))
  {
    if |log| > 0 {
      var before, last := log[..|log| - 1], log[|log| - 1];
      FateKeepsOrder(before, fate);
      SubsequenceKeeps(EventsWith(before, fate), SettledEvents(before), last.events);
      SubsequenceSkips(EventsWith(before, fate), SettledEvents(before), last.events);
      assert EventsWith(before, fate) + [] == EventsWith(before, fate);
    }
  }

  /** Acknowledged events are in the order in which they entered the queue. */
  lemma {:induction false} AckedKeepOrder(capacity: nat, trace: seq<Step>)
    requires IsRun(capacity, trace)
    ensures Subsequence(EventsWith(Run(capacity, trace).log, Acked), Run(capacity, trace).ledger.entered)
  {
    RunKeepsOrder(capacity, trace);
    OrderedKeepsAcked(Run(capacity, trace));
  }

  lemma {:induction false} OrderedKeepsAcked(s: State)
    requires Ordered(s)
    ensures Subsequence(EventsWith(s.log, Acked), s.ledger.entered)
  {
    var acked, settled := EventsWith(s.log, Acked), SettledEvents(s.log);
    var pending, queued := Flatten(s.pending), QueuedEvents(s.queue);
    FateKeepsOrder(s.log, Acked);
    SubsequenceSkips(acked, settled, pending);
    SubsequenceSkips(acked, settled + pending, s.buffer);
    SubsequenceSkips(acked, settled + pending + s.buffer, queued);
  }

  // ----- bounds -----

  ghost predicate Bounded(s: State, most: nat) {
    |s.queue| <= s.capacity && |s.buffer| < most
  }

  /** The queue never outgrows its capacity, and between flushes the buffer holds
      fewer events than the largest batch limit in force so far. */
  lemma {:induction false} RunStaysBounded(capacity: nat, trace: seq<Step>, most: nat)
    requires IsRun(capacity, trace) && most >= 1
    requires forall i | 0 <= i < |trace| && trace[i].Receive? :: trace[i].limits.maxEvents <= most
    ensures Bounded(Run(capacity, trace), most) && Run(capacity, trace).capacity == capacity
  {
    if |trace| > 0 {
      var before := trace[..|trace| - 1];
      assert forall i | 0 <= i < |before| :: before[i] == trace[i];
      RunStaysBounded(capacity, before, most);
      StepStaysBounded(Run(capacity, before), trace[|trace| - 1], most);
    }
  }

  lemma {:induction false} StepStaysBounded(s: State, step: Step, most: nat)
    requires Possible(s, step) && Bounded(s, most) && (step.Receive? ==> step.limits.maxEvents <= most)
    ensures Bounded(Apply(s, step), most) && Apply(s, step).capacity == s.capacity
  {
  }

  // ----- fates -----

  /** What a fate says about the posts of its batch. */
  predicate FateFits(done: Settled) {
    var most := if done.retry then 4 else 1;
    match done.fate
    case Acked => 1 <= done.accepted <= done.attempts <= most
    case SendFailed => done.accepted <= done.attempts == most
    case NotSendable => done.attempts == done.accepted == 0
    case BadResponse => 1 <= done.attempts <= most && done.accepted <= done.attempts
  }

  ghost predicate FatesFit(s: State) {
    && (forall done | done in s.log :: FateFits(done))
    && (s.current.Some? ==> s.current.value.accepted <= s.current.value.attempts <= RetryBudget(s.retry))
    && (s.current.Some? ==> s.pending != [])
  }

  /** A batch is posted at most four times, once in the final flush; one that
      failed used up all its posts; one that fails a local check is never posted;
      and an acknowledged one was accepted. */
  lemma {:induction false} RunFates(capacity: nat, trace: seq<Step>)
    requires IsRun(capacity, trace)
    ensures FatesFit(Run(capacity, trace))
  {
    if |trace| > 0 {
      RunFates(capacity, trace[..|trace| - 1]);
      StepFates(Run(capacity, trace[..|trace| - 1]), trace[|trace| - 1]);
    }
  }

  lemma {:induction false} StepFates(s: State, step: Step)
    requires Possible(s, step) && FatesFit(s)
    ensures FatesFit(Apply(s, step))
  {
    var t := Apply(s, step);
    if step.Take? || step.Try? {
      assert t.log == s.log || t.log == s.log + [t.log[|s.log|]];
    }
  }

  /** No event breaks the wire rules, every request serializes, and every 2xx reply
      is well formed. */
  predicate CleanStep(step: Step) {
    && (step.Offer? ==> step.event.valid)
    && (step.Take? ==> step.encodes)
    && (step.Try? ==> !step.outcome.MalformedReply?)
  }

  ghost predicate Clean(s: State) {
    && (forall e | e in s.ledger.entered :: e.valid)
    && (forall b | b in s.pending :: |b| > 0)
    && (forall done | done in s.log :: done.fate == Acked || done.fate == SendFailed)
  }

  lemma {:induction false} InFlatten(batches: seq<Batch>, batch: Batch, event: WireEvent)
    requires batch in batches && event in batch
    ensures event in Flatten(batches)
  {
    if batch != batches[0] { InFlatten(batches[1..], batch, event); }
  }

  lemma {:induction false} PendingIsSendable(s: State)
    requires Ordered(s) && Clean(s) && s.pending != []
    ensures Sendable(s.pending[0])
  {
    forall e | e in s.pending[0] ensures e.valid {
      InFlatten(s.pending, s.pending[0], e);
      assert e in s.ledger.entered;
    }
  }

  lemma {:induction false} SettleStaysClean(s: State, done: Current, fate: Fate)
    requires s.pending != [] && Clean(s) && (fate == Acked || fate == SendFailed)
    ensures Clean(Settle(s, done, fate))
  {
  }

  lemma {:induction false} TryStaysClean(s: State, outcome: Outcome)
    requires s.pending != [] && s.current.Some? && !outcome.MalformedReply? && Clean(s)
    ensures Clean(Attempt(s, outcome))
  {
    SettleStaysClean(s, Tried(s.current.value, outcome), Acked);
    SettleStaysClean(s, Tried(s.current.value, outcome), SendFailed);
  }

  lemma {:induction false} StepStaysClean(s: State, step: Step)
    requires Possible(s, step) && CleanStep(step) && Ordered(s) && Clean(s)
    ensures Clean(Apply(s, step))
  {
    match step
    case Take(_) => PendingIsSendable(s);
    case Try(outcome) => TryStaysClean(s, outcome);
    case _ =>
  }

  /** With valid events, serializable requests and well-formed replies, every batch
      ends acknowledged or counted as failed: no event disappears silently. */
  lemma {:induction false} NoSilentLoss(capacity: nat, trace: seq<Step>)
    requires IsRun(capacity, trace) && forall i | 0 <= i < |trace| :: CleanStep(trace[i])
    ensures Clean(Run(capacity, trace))
  {
    if |trace| > 0 {
      var before := trace[..|trace| - 1];
      assert CleanStep(trace[|trace| - 1]);
      assert forall i | 0 <= i < |before| :: before[i] == trace[i];
      NoSilentLoss(capacity, before);
      RunKeepsOrder(capacity, before);
      StepStaysClean(Run(capacity, before), trace[|trace| - 1]);
    }
  }

  // ----- sequence numbers -----

  function PostSequences(posts: seq<Post>): seq<nat> {
    if |posts| == 0 then [] else PostSequences(posts[..|posts| - 1]) + [posts[|posts| - 1].sequence]
  }

  function AcceptedSequences(posts: seq<Post>): seq<nat> {
    if |posts| == 0 then []
    else AcceptedSequences(posts[..|posts| - 1])
         + (if posts[|posts| - 1].accepted then [posts[|posts| - 1].sequence] else [])
  }

  function SettledAttempts(log: seq<Settled>): (counts: seq<nat>)
    ensures |counts| == |log|
  {
    seq(|log|, i requires 0 <= i < |log| => log[i].attempts)
  }

  function SettledAccepts(log: seq<Settled>): (counts: seq<nat>)
    ensures |counts| == |log|
  {
    seq(|log|, i requires 0 <= i < |log| => log[i].accepted)
  }

  /** Posts of each batch so far, settled ones first. */
  function Attempts(s: State): seq<nat> {
    SettledAttempts(s.log) + (if s.current.Some? then [s.current.value.attempts] else [])
  }

  function Accepts(s: State): seq<nat> {
    SettledAccepts(s.log) + (if s.current.Some? then [s.current.value.accepted] else [])
  }

  lemma {:induction false} SettledCounts(log: seq<Settled>, settled: Settled)
    ensures SettledAttempts(log + [settled]) == SettledAttempts(log) + [settled.attempts]
    ensures SettledAccepts(log + [settled]) == SettledAccepts(log) + [settled.accepted]
  {
  }

  /** The i-th batch has number i, posts come batch by batch, and what the
      controller accepted is the accepted posts in that order. */
  ghost predicate Numbered(s: State) { NumbersRise(s) && PostsMatch(s) }

  ghost predicate NumbersRise(s: State) {
    && (forall i | 0 <= i < |s.log| :: s.log[i].sequence == i + 1)
    && (s.current.Some? ==> s.current.value.sequence == |s.log| + 1)
    && s.sequence == |s.log| + (if s.current.Some? then 2 else 1)
  }

  ghost predicate PostsMatch(s: State) {
    && PostSequences(s.posts) == T.Arrivals(1, Attempts(s))
    && AcceptedSequences(s.posts) == T.Arrivals(1, Accepts(s))
  }

  lemma {:induction false} NoArrival(start: nat, counts: seq<nat>)
    ensures T.Arrivals(start, counts + [0]) == T.Arrivals(start, counts)
  {
    assert (counts + [0])[..|counts|] == counts;
    assert T.Copies(start + |counts|, 0) == [];
  }

  lemma {:induction false} OneMoreArrival(start: nat, counts: seq<nat>, k: nat)
    ensures T.Arrivals(start, counts + [k + 1]) == T.Arrivals(start, counts + [k]) + [start + |counts|]
  {
    assert (counts + [k])[..|counts|] == counts && (counts + [k + 1])[..|counts|] == counts;
    assert T.Copies(start + |counts|, k + 1) == T.Copies(start + |counts|, k) + [start + |counts|];
  }

  lemma {:induction false} PostAppend(posts: seq<Post>, post: Post)
    ensures PostSequences(posts + [post]) == PostSequences(posts) + [post.sequence]
    ensures AcceptedSequences(posts + [post])
         == AcceptedSequences(posts) + (if post.accepted then [post.sequence] else [])
  {
    assert (posts + [post])[..|posts|] == posts;
  }

  lemma {:induction false} TakeKeepsNumbers(s: State, encodes: bool)
    requires s.pending != [] && s.current == None && Numbered(s) && |s.log| + 2 <= U64_MAX
    ensures Numbered(Begin(s, encodes))
  {
    var t := Begin(s, encodes);
    NoArrival(1, Attempts(s));
    NoArrival(1, Accepts(s));
    assert Attempts(t) == Attempts(s) + [0];
    assert Accepts(t) == Accepts(s) + [0];
  }

  /** An attempt counts one more post of the last batch. */
  lemma {:induction false} TryCounts(s: State, outcome: Outcome)
    requires s.pending != [] && s.current.Some?
    ensures var t, n, last := Attempt(s, outcome), |s.log|, Tried(s.current.value, outcome);
            && Attempts(t) == SettledAttempts(s.log) + [last.attempts]
            && Accepts(t) == SettledAccepts(s.log) + [last.accepted]
            && t.posts == s.posts + [Post(last.sequence, WasAccepted(outcome))]
            && t.sequence == s.sequence
            && ((t.log == s.log && t.current == Some(last))
                || (|t.log| == n + 1 && t.log[..n] == s.log && t.current == None && t.log[n].sequence == last.sequence))
  {
    var t := Attempt(s, outcome);
    if t.log != s.log { SettledCounts(s.log, t.log[|s.log|]); }
  }

  lemma {:induction false} TryMatches(s: State, outcome: Outcome)
    requires s.pending != [] && s.current.Some? && Numbered(s)
    ensures PostsMatch(Attempt(s, outcome))
  {
    var t, current := Attempt(s, outcome), s.current.value;
    TryCounts(s, outcome);
    PostAppend(s.posts, Post(current.sequence, WasAccepted(outcome)));
    OneMoreArrival(1, SettledAttempts(s.log), current.attempts);
    OneMoreArrival(1, SettledAccepts(s.log), current.accepted);
  }

  lemma {:induction false} TryKeepsNumbers(s: State, outcome: Outcome)
    requires s.pending != [] && s.current.Some? && Numbered(s)
    ensures Numbered(Attempt(s, outcome))
  {
    TryCounts(s, outcome);
    TryMatches(s, outcome);
  }

  /** As long as the numbers last, every run numbers its batches one by one, and
      retries reuse the number of their batch. */
  lemma {:induction false} RunNumbers(capacity: nat, trace: seq<Step>)
    requires IsRun(capacity, trace) && |Run(capacity, trace).log| + 1 < U64_MAX
    ensures Numbered(Run(capacity, trace))
  {
    if |trace| > 0 {
      var before := trace[..|trace| - 1];
      var s, step := Run(capacity, before), trace[|trace| - 1];
      LogGrows(s, step);
      RunNumbers(capacity, before);
      match step
      case Take(encodes) => TakeKeepsNumbers(s, encodes);
      case Try(outcome) => TryKeepsNumbers(s, outcome);
      case _ => SameNumbers(s, Apply(s, step));
    }
  }

  lemma {:induction false} LogGrows(s: State, step: Step)
    requires Possible(s, step)
    ensures |s.log| <= |Apply(s, step).log|
    ensures !step.Take? && !step.Try? ==>
              var t := Apply(s, step);
              t.log == s.log && t.current == s.current && t.sequence == s.sequence && t.posts == s.posts
  {
  }

  lemma {:induction false} SameNumbers(s: State, t: State)
    requires Numbered(s) && t.log == s.log && t.current == s.current && t.sequence == s.sequence && t.posts == s.posts
    ensures Numbered(t)
  {
  }

  lemma {:induction false} RunDeliversInOrder(capacity: nat, trace: seq<Step>)
    requires IsRun(capacity, trace) && |Run(capacity, trace).log| + 1 < U64_MAX
    ensures T.Ordered(AcceptedSequences(Run(capacity, trace).posts))
    ensures T.Below(AcceptedSequences(Run(capacity, trace).posts), U64_MAX)
  {
    var s := Run(capacity, trace);
    RunNumbers(capacity, trace);
    T.ArrivalsOrdered(1, Accepts(s));
    AcceptsLength(s);
    T.OnlyAcceptedBelow(1, Accepts(s), AcceptedSequences(s.posts), U64_MAX);
  }

  lemma {:induction false} AcceptsLength(s: State)
    ensures |Accepts(s)| <= |s.log| + 1
  {
  }

  // ----- at the controller -----

  /** The limits of the flushes in a run never exceed `most`. */
  predicate FlushesWithin(step: Step, most: nat) {
    match step
    case Receive(limits, _) => limits.maxEvents <= most
    case Timeout(limits, _) => limits.maxEvents <= most
    case Disconnect(limits, _) => limits.maxEvents <= most
    case _ => true
  }

  ghost predicate BatchesWithin(s: State, most: nat) {
    && (forall b | b in s.pending :: 0 < |b| <= most)
    && (s.current.Some? ==> s.pending != [] && Sendable(s.pending[0]))
  }

  lemma {:induction false} SplitWithin(limits: Limits, events: seq<WireEvent>, batches: seq<Batch>, most: nat)
    requires IsSplit(limits, events, batches) && limits.maxEvents <= most && most >= 1
    ensures forall b | b in batches :: 0 < |b| <= most
  {
    forall i | 0 <= i < |batches| ensures 0 < |batches[i]| <= most { assert Admissible(limits, batches[i]); }
  }

  lemma {:induction false} StepBatchesWithin(s: State, step: Step, most: nat)
    requires Possible(s, step) && BatchesWithin(s, most) && FlushesWithin(step, most) && most >= 1
    ensures BatchesWithin(Apply(s, step), most)
  {
    match step
    case Receive(limits, batches) =>
      if FlushesOnReceive(s, limits) { SplitWithin(limits, Received(s), batches, most); }
    case Timeout(limits, batches) => SplitWithin(limits, s.buffer, batches, most);
    case Disconnect(limits, batches) => SplitWithin(limits, s.buffer, batches, most);
    case _ =>
  }

  /** The batch being posted passes the controller's validation whenever the agent's
      limits stayed within the controller's: every post that arrives is accepted. */
  lemma {:induction false} PostsAreValid(capacity: nat, trace: seq<Step>, most: nat, agent: Controller.AgentId)
    requires IsRun(capacity, trace) && most >= 1 && forall i | 0 <= i < |trace| :: FlushesWithin(trace[i], most)
    ensures BatchesWithin(Run(capacity, trace), most)
    ensures var s := Run(capacity, trace);
            s.current.Some? ==>
              Controller.ValidBatch(
                Controller.EventBatch(agent, s.current.value.sequence, true, s.pending[0]), most)
  {
    if |trace| > 0 {
      var before := trace[..|trace| - 1];
      assert forall i | 0 <= i < |before| :: before[i] == trace[i];
      PostsAreValid(capacity, before, most, agent);
      assert FlushesWithin(trace[|trace| - 1], most);
      StepBatchesWithin(Run(capacity, before), trace[|trace| - 1], most);
    }
  }

  /** Gaps are the numbers between the first and the last that are missing, and
      regressions the repeats. */
  ghost predicate CountsEpoch(t: T.Tracking, epoch: seq<nat>)
    requires |epoch| > 0
  {
    && t.gapsTotal == |T.Range(epoch[0], epoch[|epoch| - 1]) - T.ToSet(epoch)|
    && t.regressionsTotal == T.Clamp(|epoch| - |T.ToSet(epoch)|)
  }

  /** When attempts arrive in order, then in every stretch of accepted posts gaps are
      exactly the batches between the first and the last of which none was accepted,
      and regressions exactly the repeat deliveries. */
  lemma {:induction false} StretchIsCounted(capacity: nat, trace: seq<Step>, before: seq<nat>, epoch: seq<nat>)
    requires IsRun(capacity, trace) && |Run(capacity, trace).log| + 1 < U64_MAX
    requires AcceptedSequences(Run(capacity, trace).posts) == before + epoch && |epoch| > 0
    ensures CountsEpoch(T.TrackAll(epoch), epoch)
  {
    RunDeliversInOrder(capacity, trace);
    T.TailKeeps(before, epoch, U64_MAX);
    T.OrderedIsCounted(epoch);
  }

  /** End to end: a controller that has served any calls, this agent's accepted
      batches since its last hello being the tail of the sink's accepted posts, holds
      for the agent exactly the batches in between of which it accepted no post as
      gaps, and exactly the repeat deliveries as regressions. */
  lemma {:induction false} ControllerCountsTheRun(
    capacity: nat, trace: seq<Step>, before: seq<nat>, epoch: seq<nat>, config: ConfigResponse,
    calls: seq<Controller.Call>, agent: Controller.AgentId)
    requires IsRun(capacity, trace) && |Run(capacity, trace).log| + 1 < U64_MAX
    requires AcceptedSequences(Run(capacity, trace).posts) == before + epoch && |epoch| > 0
    requires Controller.Epoch(config, calls, agent) == epoch
    ensures CountsEpoch(Controller.TrackingOf(Controller.ServeAll(Controller.NewInner(config), calls), agent), epoch)
  {
    Controller.EpochAccounting(config, calls, agent);
    StretchIsCounted(capacity, trace, before, epoch);
  }
}
