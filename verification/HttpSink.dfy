/** The HTTP sink: a bounded buffer, batches that are lost when a post fails, and
    exponential backoff. Times are in milliseconds. */
module HttpSink {

  type Occurrence = nat

  const INITIAL_BACKOFF: nat := 1_000
  const MAX_BACKOFF: nat := 60_000

  datatype PostResult = Accepted | Refused | Unserializable

  /** What became of a stretch of occurrences that left the buffer. */
  datatype Fate = Overflowed | Posted | Failed | NotSerialized

  datatype Segment = Segment(fate: Fate, items: seq<Occurrence>, takenMs: nat, atMs: nat)

  /** `log` and `sent` record history; the sink itself keeps the other fields. */
  datatype State = State(
    bufferSize: nat, flushInterval: nat, buffer: seq<Occurrence>,
    lastFlush: nat, nextRetry: nat, backoff: nat,
    log: seq<Segment>, sent: seq<Occurrence>)

  function NewSink(bufferSize: nat, flushInterval: nat, nowMs: nat): State {
    State(bufferSize, flushInterval, [], nowMs, nowMs, INITIAL_BACKOFF, [], [])
  }

  function FateOf(result: PostResult): Fate {
    match result
    case Accepted => Posted
    case Refused => Failed
    case Unserializable => NotSerialized
  }

  function Double(backoff: nat): nat { if backoff * 2 > MAX_BACKOFF then MAX_BACKOFF else backoff * 2 }

  /** `post_batch`: the batch is gone whatever the outcome. */
  function AfterPost(s: State, batch: seq<Occurrence>, result: PostResult, atMs: nat): State {
    if batch == [] then s
    else
      var logged := s.(log := s.log + [Segment(FateOf(result), batch, s.lastFlush, atMs)]);
      match result
      case Accepted => logged.(backoff := INITIAL_BACKOFF)
      case Refused => logged.(nextRetry := atMs + s.backoff, backoff := Double(s.backoff))
      case Unserializable => logged
  }

  function TakeAndPost(s: State, nowMs: nat, result: PostResult, atMs: nat): State {
    AfterPost(s.(buffer := [], lastFlush := nowMs), s.buffer, result, atMs)
  }

  /** A full buffer keeps only its newest `bufferSize` occurrences. */
  function Trimmed(s: State, nowMs: nat): State {
    if |s.buffer| >= s.bufferSize * 10 then
      var cut := |s.buffer| - s.bufferSize;
      if cut <= 0 then s
      else s.(buffer := s.buffer[cut..], log := s.log + [Segment(Overflowed, s.buffer[..cut], nowMs, nowMs)])
    else s
  }

  predicate ShouldFlush(s: State, nowMs: nat) {
    nowMs >= s.nextRetry && (|s.buffer| >= s.bufferSize || nowMs - s.lastFlush >= s.flushInterval)
  }

  function Pushed(s: State, occurrence: Occurrence, nowMs: nat): State {
    var trimmed := Trimmed(s, nowMs);
    trimmed.(buffer := trimmed.buffer + [occurrence], sent := s.sent + [occurrence])
  }

  function Send(s: State, occurrence: Occurrence, nowMs: nat, result: PostResult, atMs: nat): State {
    var pushed := Pushed(s, occurrence, nowMs);
    if ShouldFlush(pushed, nowMs) then TakeAndPost(pushed, nowMs, result, atMs) else pushed
  }

  function Flush(s: State, nowMs: nat, result: PostResult, atMs: nat): State {
    if s.buffer == [] then s else TakeAndPost(s, nowMs, result, atMs)
  }

  class Sink {
    const bufferSize: nat
    const flushInterval: nat
    const maxBuffer: nat
    var buffer: seq<Occurrence>
    var lastFlush: nat
    var nextRetry: nat
    var backoff: nat
    ghost var log: seq<Segment>
    ghost var sent: seq<Occurrence>

    ghost predicate Valid()
      reads this
    {
      maxBuffer == bufferSize * 10
    }

    ghost function View(): State
      reads this
    {
      State(bufferSize, flushInterval, buffer, lastFlush, nextRetry, backoff, log, sent)
    }

    constructor (bufferSize: nat, flushInterval: nat, nowMs: nat)
      ensures Valid() && View() == NewSink(bufferSize, flushInterval, nowMs)
    {
      this.bufferSize, this.flushInterval, maxBuffer := bufferSize, flushInterval, bufferSize * 10;
      buffer, lastFlush, nextRetry, backoff := [], nowMs, nowMs, INITIAL_BACKOFF;
      log, sent := [], [];
    }

    method SendOccurrence(occurrence: Occurrence, nowMs: nat, result: PostResult, atMs: nat)
      requires Valid()
      modifies this
      ensures Valid() && View() == Send(old(View()), occurrence, nowMs, result, atMs)
    {
      if |buffer| >= maxBuffer {
        var drainCount := |buffer| - bufferSize;
        if drainCount > 0 {
          log := log + [Segment(Overflowed, buffer[..drainCount], nowMs, nowMs)];
          buffer := buffer[drainCount..];
        }
      }
      buffer := buffer + [occurrence];
      sent := sent + [occurrence];
      if nowMs >= nextRetry && (|buffer| >= bufferSize || nowMs - lastFlush >= flushInterval) {
        var batch := buffer;
        buffer := [];
        lastFlush := nowMs;
        PostBatch(batch, result, atMs);
      }
    }

    method FlushNow(nowMs: nat, result: PostResult, atMs: nat)
      requires Valid()
      modifies this
      ensures Valid() && View() == Flush(old(View()), nowMs, result, atMs)
    {
      if buffer == [] {
        return;
      }
      var batch := buffer;
      buffer := [];
      lastFlush := nowMs;
      PostBatch(batch, result, atMs);
    }

    method PostBatch(batch: seq<Occurrence>, result: PostResult, atMs: nat)
      requires Valid()
      modifies this`nextRetry, this`backoff, this`log
      ensures View() == AfterPost(old(View()), batch, result, atMs)
    {
      if batch == [] {
        return;
      }
      log := log + [Segment(FateOf(result), batch, lastFlush, atMs)];
      if result == Accepted {
        backoff := INITIAL_BACKOFF;
      } else if result == Refused {
        nextRetry := atMs + backoff;
        backoff := if backoff * 2 > MAX_BACKOFF then MAX_BACKOFF else backoff * 2;
      }
    }
  }

  // ----- runs, one call at a time -----

  datatype Call =
    | DoSend(occurrence: Occurrence, nowMs: nat, result: PostResult, atMs: nat)
    | DoFlush(nowMs: nat, result: PostResult, atMs: nat)

  function Do(s: State, call: Call): State {
    match call
    case DoSend(occurrence, nowMs, result, atMs) => Send(s, occurrence, nowMs, result, atMs)
    case DoFlush(nowMs, result, atMs) => Flush(s, nowMs, result, atMs)
  }

  function Run(start: State, calls: seq<Call>): State {
    if |calls| == 0 then start else Do(Run(start, calls[..|calls| - 1]), calls[|calls| - 1])
  }

  function Gone(log: seq<Segment>): seq<Occurrence> {
    if |log| == 0 then [] else Gone(log[..|log| - 1]) + log[|log| - 1].items
  }

  /** Refused posts in a row at the end of the history; overflows and batches that
      could not be serialized do not count. */
  function FailuresInARow(log: seq<Segment>): nat {
    if |log| == 0 then 0
    else match log[|log| - 1].fate
         case Failed => FailuresInARow(log[..|log| - 1]) + 1
         case Posted => 0
         case _ => FailuresInARow(log[..|log| - 1])
  }

  function Pow2(k: nat): nat { if k == 0 then 1 else 2 * Pow2(k - 1) }

  function BackoffAfter(failures: nat): nat {
    if Pow2(failures) * 1_000 > MAX_BACKOFF then MAX_BACKOFF else Pow2(failures) * 1_000
  }

  /** When the last refused post allows the next send-triggered one. */
  function RetryAt(start: nat, log: seq<Segment>): nat {
    if |log| == 0 then start
    else
      var before, last := log[..|log| - 1], log[|log| - 1];
      if last.fate == Failed then last.atMs + BackoffAfter(FailuresInARow(before)) else RetryAt(start, before)
  }

  /** When the buffer was last taken for a post. */
  function LastTaken(start: nat, log: seq<Segment>): nat {
    if |log| == 0 then start
    else if log[|log| - 1].fate == Overflowed then LastTaken(start, log[..|log| - 1])
    else log[|log| - 1].takenMs
  }

  ghost predicate SinkInvariant(s: State, start: nat) {
    && s.lastFlush == LastTaken(start, s.log)
    && s.sent == Gone(s.log) + s.buffer
    && s.backoff == BackoffAfter(FailuresInARow(s.log))
    && s.nextRetry == RetryAt(start, s.log)
    && (s.bufferSize > 0 ==> |s.buffer| <= 10 * s.bufferSize)
  }

  lemma {:induction false} LogStep(log: seq<Segment>, segment: Segment, start: nat)
    ensures var after := log + [segment];
            && Gone(after) == Gone(log) + segment.items
            && FailuresInARow(after) == (match segment.fate case Failed => FailuresInARow(log) + 1
                                                            case Posted => 0 case _ => FailuresInARow(log))
            && LastTaken(start, after)
               == (if segment.fate == Overflowed then LastTaken(start, log) else segment.takenMs)
            && RetryAt(start, after) == if segment.fate == Failed then segment.atMs + BackoffAfter(FailuresInARow(log))
                                        else RetryAt(start, log)
  {
    assert (log + [segment])[..|log|] == log;
  }

  lemma {:induction false} DoublingIsBackoff(failures: nat)
    ensures Double(BackoffAfter(failures)) == BackoffAfter(failures + 1)
    ensures BackoffAfter(0) == INITIAL_BACKOFF
  {
  }

  lemma {:induction false} PostKeeps(s: State, nowMs: nat, result: PostResult, atMs: nat, start: nat)
    requires s.sent == Gone(s.log) + s.buffer && s.backoff == BackoffAfter(FailuresInARow(s.log))
    requires s.nextRetry == RetryAt(start, s.log) && (s.buffer == [] ==> nowMs == LastTaken(start, s.log))
    ensures SinkInvariant(TakeAndPost(s, nowMs, result, atMs), start)
    ensures TakeAndPost(s, nowMs, result, atMs).buffer == []
    ensures TakeAndPost(s, nowMs, result, atMs).bufferSize == s.bufferSize
  {
    LogStep(s.log, Segment(FateOf(result), s.buffer, nowMs, atMs), start);
    DoublingIsBackoff(FailuresInARow(s.log));
  }

  lemma {:induction false} AppendKeeps(t: State, occurrence: Occurrence, start: nat)
    requires SinkInvariant(t, start) && (t.bufferSize > 0 ==> |t.buffer| < 10 * t.bufferSize)
    ensures SinkInvariant(t.(buffer := t.buffer + [occurrence], sent := t.sent + [occurrence]), start)
  {
    var gone := Gone(t.log);
    assert (gone + t.buffer) + [occurrence] == gone + (t.buffer + [occurrence]);
  }

  lemma {:induction false} PushKeeps(s: State, occurrence: Occurrence, nowMs: nat, start: nat)
    requires SinkInvariant(s, start)
    ensures SinkInvariant(Pushed(s, occurrence, nowMs), start)
    ensures Pushed(s, occurrence, nowMs).buffer != [] && Pushed(s, occurrence, nowMs).bufferSize == s.bufferSize
  {
    TrimKeeps(s, nowMs, start);
    AppendKeeps(Trimmed(s, nowMs), occurrence, start);
  }

  lemma {:induction false} TrimKeeps(s: State, nowMs: nat, start: nat)
    requires SinkInvariant(s, start)
    ensures SinkInvariant(Trimmed(s, nowMs), start)
    ensures s.bufferSize > 0 ==> |Trimmed(s, nowMs).buffer| < 10 * s.bufferSize
    ensures Trimmed(s, nowMs).sent == s.sent && Trimmed(s, nowMs).bufferSize == s.bufferSize
  {
    var cut := |s.buffer| - s.bufferSize;
    if |s.buffer| >= s.bufferSize * 10 && cut > 0 {
      LogStep(s.log, Segment(Overflowed, s.buffer[..cut], nowMs, nowMs), start);
      assert s.buffer == s.buffer[..cut] + s.buffer[cut..];
    }
  }

  /** On every run: what was sent is what left the buffer, in order, followed by
      the buffer, so the buffer is a suffix of what was sent and every occurrence
      is posted, overflowed, failed, unserialized or buffered exactly once; the
      backoff is min(2^k, 60) seconds after k refusals in a row; sends wait for
      the time the last refusal set; and a sink of positive size never buffers
      more than ten times it. */
  lemma {:induction false} RunKeepsInvariant(bufferSize: nat, flushInterval: nat, start: nat, calls: seq<Call>)
    ensures var s := Run(NewSink(bufferSize, flushInterval, start), calls);
            SinkInvariant(s, start) && s.bufferSize == bufferSize
  {
    if |calls| == 0 {
      assert BackoffAfter(0) == INITIAL_BACKOFF;
    } else {
      RunKeepsInvariant(bufferSize, flushInterval, start, calls[..|calls| - 1]);
      CallKeeps(Run(NewSink(bufferSize, flushInterval, start), calls[..|calls| - 1]), calls[|calls| - 1], start);
    }
  }

  lemma {:induction false} CallKeeps(s: State, call: Call, start: nat)
    requires SinkInvariant(s, start)
    ensures SinkInvariant(Do(s, call), start) && Do(s, call).bufferSize == s.bufferSize
  {
    match call
    case DoSend(occurrence, nowMs, result, atMs) =>
      PushKeeps(s, occurrence, nowMs, start);
      SomethingPosted(Pushed(s, occurrence, nowMs), nowMs, result, atMs, start);
    case DoFlush(nowMs, result, atMs) =>
      if s.buffer != [] { SomethingPosted(s, nowMs, result, atMs, start); }
  }

  lemma {:induction false} SomethingPosted(s: State, nowMs: nat, result: PostResult, atMs: nat, start: nat)
    requires SinkInvariant(s, start) && s.buffer != []
    ensures SinkInvariant(TakeAndPost(s, nowMs, result, atMs), start)
    ensures TakeAndPost(s, nowMs, result, atMs).bufferSize == s.bufferSize
  {
    PostKeeps(s, nowMs, result, atMs, start);
  }

  /** Besides what overflows, a send posts nothing or the whole buffer once, and
      never before the retry time of the last refusal. */
  lemma {:induction false} SendsRespectRetry(bufferSize: nat, flushInterval: nat, start: nat, calls: seq<Call>,
                          occurrence: Occurrence, nowMs: nat, result: PostResult, atMs: nat)
    ensures var s := Run(NewSink(bufferSize, flushInterval, start), calls);
            var t := Trimmed(s, nowMs);
            var after := Send(s, occurrence, nowMs, result, atMs);
            || (after.log == t.log && after.buffer == t.buffer + [occurrence])
            || (nowMs >= RetryAt(start, s.log) && after.buffer == []
                && after.log == t.log + [Segment(FateOf(result), t.buffer + [occurrence], nowMs, atMs)])
  {
    RunKeepsInvariant(bufferSize, flushInterval, start, calls);
    SendCases(Run(NewSink(bufferSize, flushInterval, start), calls), occurrence, nowMs, result, atMs);
  }

  lemma {:induction false} SendCases(s: State, occurrence: Occurrence, nowMs: nat, result: PostResult, atMs: nat)
    ensures var t := Trimmed(s, nowMs);
            var after := Send(s, occurrence, nowMs, result, atMs);
            || (after.log == t.log && after.buffer == t.buffer + [occurrence])
            || (nowMs >= s.nextRetry && after.buffer == []
                && after.log == t.log + [Segment(FateOf(result), t.buffer + [occurrence], nowMs, atMs)])
  {
  }

  /** The segment at `i` is the stretch of what was sent that follows everything
      gone before it; an overflow takes nine buffer sizes and leaves at least the
      newest one behind. */
  ghost predicate SegmentFits(s: State, i: nat)
    requires i < |s.log|
  {
    var start, items := |Gone(s.log[..i])|, s.log[i].items;
    && start + |items| <= |s.sent| && items == s.sent[start..start + |items|]
    && (s.log[i].fate == Overflowed ==> |items| == 9 * s.bufferSize && start + |items| + s.bufferSize <= |s.sent|)
  }

  ghost predicate SegmentsFit(s: State) { forall i: nat | i < |s.log| :: SegmentFits(s, i) }

  /** More sent, and the same log: every segment still fits. */
  lemma {:induction false} FitsLonger(s: State, t: State, i: nat)
    requires i < |s.log| && SegmentFits(s, i) && s.log <= t.log && s.sent <= t.sent && s.bufferSize == t.bufferSize
    ensures SegmentFits(t, i)
  {
    assert t.log[..i] == s.log[..i] && t.log[i] == s.log[i];
    var start, end := |Gone(s.log[..i])|, |Gone(s.log[..i])| + |s.log[i].items|;
    assert t.sent[start..end] == s.sent[start..end];
  }

  /** The buffer's oldest `cut` occurrences become the next segment. */
  lemma {:induction false} CutFits(s: State, t: State, cut: nat, segment: Segment)
    requires SegmentsFit(s) && s.sent == Gone(s.log) + s.buffer && cut <= |s.buffer|
    requires t.log == s.log + [segment] && segment.items == s.buffer[..cut]
    requires t.sent == s.sent && t.bufferSize == s.bufferSize
    requires segment.fate == Overflowed ==> cut == 9 * s.bufferSize && |s.buffer| == 10 * s.bufferSize
    ensures SegmentsFit(t)
  {
    var n := |s.log|;
    forall i: nat | i < |t.log| ensures SegmentFits(t, i) {
      if i < n {
        FitsLonger(s, t, i);
      } else {
        assert t.log[..n] == s.log;
      }
    }
  }

  lemma {:induction false} PushFits(s: State, occurrence: Occurrence, nowMs: nat, start: nat)
    requires SinkInvariant(s, start) && SegmentsFit(s) && s.bufferSize > 0
    ensures SegmentsFit(Pushed(s, occurrence, nowMs))
  {
    var t, pushed := Trimmed(s, nowMs), Pushed(s, occurrence, nowMs);
    if |s.buffer| >= s.bufferSize * 10 {
      CutFits(s, t, 9 * s.bufferSize, Segment(Overflowed, s.buffer[..9 * s.bufferSize], nowMs, nowMs));
    }
    forall i: nat | i < |pushed.log| ensures SegmentFits(pushed, i) { FitsLonger(t, pushed, i); }
  }

  lemma {:induction false} PostFits(s: State, nowMs: nat, result: PostResult, atMs: nat)
    requires SegmentsFit(s) && s.sent == Gone(s.log) + s.buffer
    ensures SegmentsFit(TakeAndPost(s, nowMs, result, atMs))
  {
    var t := TakeAndPost(s, nowMs, result, atMs);
    if s.buffer == [] {
      forall i: nat | i < |t.log| ensures SegmentFits(t, i) { FitsLonger(s, t, i); }
    } else {
      assert s.buffer[..|s.buffer|] == s.buffer;
      CutFits(s, t, |s.buffer|, Segment(FateOf(result), s.buffer, nowMs, atMs));
    }
  }

  /** On every run of a sink of positive size, overflow discards only the oldest:
      exactly nine buffer sizes of what was sent right after everything already
      gone, never the newest `bufferSize`; and every posted or failed batch is the
      stretch that follows what went before it. */
  lemma {:induction false} OverflowDropsOldest(bufferSize: nat, flushInterval: nat, start: nat, calls: seq<Call>)
    requires bufferSize > 0
    ensures SegmentsFit(Run(NewSink(bufferSize, flushInterval, start), calls))
  {
    if |calls| > 0 {
      var before := calls[..|calls| - 1];
      OverflowDropsOldest(bufferSize, flushInterval, start, before);
      RunKeepsInvariant(bufferSize, flushInterval, start, before);
      var s := Run(NewSink(bufferSize, flushInterval, start), before);
      match calls[|calls| - 1]
      case DoSend(occurrence, nowMs, result, atMs) =>
        PushFits(s, occurrence, nowMs, start);
        PushKeeps(s, occurrence, nowMs, start);
        PostFits(Pushed(s, occurrence, nowMs), nowMs, result, atMs);
      case DoFlush(nowMs, result, atMs) =>
        PostFits(s, nowMs, result, atMs);
    }
  }

  /** What a post made of its batch. */
  predicate FateFits(fate: Fate, result: PostResult) {
    match result
    case Accepted => fate == Posted
    case Refused => fate == Failed
    case Unserializable => fate == NotSerialized
  }

  /** The batch left the buffer as one segment. */
  predicate TookAll(before: seq<Segment>, after: seq<Segment>, items: seq<Occurrence>, nowMs: nat,
                    result: PostResult, atMs: nat)
  {
    && |after| == |before| + 1 && before <= after
    && after[|before|].items == items && after[|before|].takenMs == nowMs && after[|before|].atMs == atMs
    && FateFits(after[|before|].fate, result)
  }

  /** On every run a send keeps its occurrence behind what a full buffer keeps, and then
      posts the whole buffer exactly when it is due: the last refusal's wait is over,
      and the buffer holds `bufferSize` or the flush interval has passed since the
      buffer was last taken. */
  lemma {:induction false} SendPostsIff(bufferSize: nat, flushInterval: nat, start: nat, calls: seq<Call>,
                     occurrence: Occurrence, nowMs: nat, result: PostResult, atMs: nat)
    ensures var s := Run(NewSink(bufferSize, flushInterval, start), calls);
            SendMeans(s, bufferSize, flushInterval, start, occurrence, nowMs, result, atMs,
                      Do(s, DoSend(occurrence, nowMs, result, atMs)))
  {
    RunKeepsInvariant(bufferSize, flushInterval, start, calls);
    RunKeepsSettings(bufferSize, flushInterval, start, calls);
    SendStepMeans(Run(NewSink(bufferSize, flushInterval, start), calls), bufferSize, flushInterval, start,
                  occurrence, nowMs, result, atMs);
  }

  predicate SendMeans(s: State, bufferSize: nat, flushInterval: nat, start: nat,
                      occurrence: Occurrence, nowMs: nat, result: PostResult, atMs: nat, after: State)
  {
    var full := |s.buffer| >= 10 * bufferSize && |s.buffer| > bufferSize;
    var cut := if full then |s.buffer| - bufferSize else 0;
    var log := if full then s.log + [Segment(Overflowed, s.buffer[..cut], nowMs, nowMs)] else s.log;
    var kept := s.buffer[cut..] + [occurrence];
    && after.sent == s.sent + [occurrence]
    && (if nowMs >= RetryAt(start, s.log)
           && (|kept| >= bufferSize || nowMs - LastTaken(start, s.log) >= flushInterval)
        then after.buffer == [] && TookAll(log, after.log, kept, nowMs, result, atMs)
        else after.buffer == kept && after.log == log)
  }

  lemma {:induction false} SendStepMeans(s: State, bufferSize: nat, flushInterval: nat, start: nat,
                      occurrence: Occurrence, nowMs: nat, result: PostResult, atMs: nat)
    requires SinkInvariant(s, start) && s.bufferSize == bufferSize && s.flushInterval == flushInterval
    ensures SendMeans(s, bufferSize, flushInterval, start, occurrence, nowMs, result, atMs,
                      Do(s, DoSend(occurrence, nowMs, result, atMs)))
  {
    assert s.buffer[0..] == s.buffer;
  }

  lemma {:induction false} RunKeepsSettings(bufferSize: nat, flushInterval: nat, start: nat, calls: seq<Call>)
    ensures var s := Run(NewSink(bufferSize, flushInterval, start), calls);
            s.bufferSize == bufferSize && s.flushInterval == flushInterval
  {
    if |calls| > 0 { RunKeepsSettings(bufferSize, flushInterval, start, calls[..|calls| - 1]); }
  }

  /** A flush posts the whole buffer, backoff or not, and an empty one does nothing. */
  lemma {:induction false} FlushPostsAll(s: State, nowMs: nat, result: PostResult, atMs: nat)
    ensures var after := Do(s, DoFlush(nowMs, result, atMs));
            && after.sent == s.sent
            && (if s.buffer == [] then after == s
                else after.buffer == [] && TookAll(s.log, after.log, s.buffer, nowMs, result, atMs))
  {
  }

  ghost predicate StaysBounded(bufferSize: nat, flushInterval: nat, start: nat, calls: seq<Call>) {
    |Run(NewSink(bufferSize, flushInterval, start), calls).buffer| <= 10 * bufferSize
  }

  /** The bound of ten times the buffer size holds on every run exactly when the
      size is positive. */
  lemma {:induction false} BufferBoundIff(bufferSize: nat, flushInterval: nat, start: nat)
    ensures bufferSize > 0 <==> forall calls :: StaysBounded(bufferSize, flushInterval, start, calls)
  {
    if bufferSize > 0 {
      forall calls ensures StaysBounded(bufferSize, flushInterval, start, calls) {
        RunKeepsInvariant(bufferSize, flushInterval, start, calls);
      }
    } else {
      var empty := NewSink(bufferSize, flushInterval, start);
      var refused, kept := DoSend(1, start, Refused, start), DoSend(2, start, Refused, start);
      var calls := [refused, kept];
      assert calls[..1] == [refused] && [refused][..0] == [];
      assert Run(empty, [refused]) == Do(empty, refused);
      assert Run(empty, calls) == Do(Do(empty, refused), kept);
      assert !StaysBounded(bufferSize, flushInterval, start, calls);
    }
  }
}
