/** How the controller sink cuts a buffer of events into request-sized batches. */
module EventBatching {
  import opened MachineInt

  /** An event as the splitter sees it: its identity, whether the wire rules
      accept it, and the length of its serialized form. */
  datatype WireEvent = WireEvent(id: nat, valid: bool, wireLen: nat)

  type Batch = seq<WireEvent>

  function WireBytes(events: seq<WireEvent>): nat {
    if |events| == 0 then 0 else WireBytes(events[..|events| - 1]) + events[|events| - 1].wireLen
  }

  /** Estimated body of one request: the empty request, the events, and one
      separator between neighbours. */
  function EstimatedLen(emptyLen: nat, batch: Batch): nat {
    var exact := emptyLen + WireBytes(batch) + (if |batch| == 0 then 0 else |batch| - 1);
    if exact > U64_MAX then U64_MAX else exact
  }

  function Flatten(batches: seq<Batch>): (events: seq<WireEvent>) {
    if |batches| == 0 then [] else batches[0] + Flatten(batches[1..])
  }

  datatype Limits = Limits(maxEvents: nat, maxBytes: nat, emptyLen: nat)

  /** A batch the sink may send: a lone event always may, however long. */
  predicate Admissible(limits: Limits, batch: Batch) {
    |batch| == 1
    || (|batch| > 1 && |batch| <= limits.maxEvents && EstimatedLen(limits.emptyLen, batch) <= limits.maxBytes)
  }

  ghost predicate AllAdmissible(limits: Limits, batches: seq<Batch>) {
    forall i | 0 <= i < |batches| :: Admissible(limits, batches[i])
  }

  /** `batch` could not have taken the first event of `next`. */
  predicate CannotTake(limits: Limits, batch: Batch, next: Batch) {
    |next| > 0 && !Admissible(limits, batch + [next[0]])
  }

  /** No batch could have taken one more event from its successor. */
  ghost predicate Greedy(limits: Limits, batches: seq<Batch>) {
    forall i {:trigger batches[i]} | 0 <= i < |batches| - 1 :: CannotTake(limits, batches[i], batches[i + 1])
  }

  lemma {:induction false} FlattenSnoc(batches: seq<Batch>, last: Batch)
    ensures Flatten(batches + [last]) == Flatten(batches) + last
  {
    if |batches| == 0 {
      assert batches + [last] == [last];
    } else {
      FlattenSnoc(batches[1..], last);
      assert (batches + [last])[1..] == batches[1..] + [last];
    }
  }

  lemma EstimateGrows(emptyLen: nat, batch: Batch, event: WireEvent)
    requires emptyLen <= U64_MAX
    ensures EstimatedLen(emptyLen, batch + [event])
         == SatAdd(SatAdd(EstimatedLen(emptyLen, batch), if |batch| > 0 then 1 else 0), event.wireLen)
  {
    assert (batch + [event])[..|batch|] == batch;
  }

  lemma GreedySnoc(limits: Limits, batches: seq<Batch>, last: Batch)
    requires Greedy(limits, batches)
    requires |batches| > 0 ==> CannotTake(limits, batches[|batches| - 1], last)
    ensures Greedy(limits, batches + [last])
  {
  }

  /** Where the splitter stands after `done`: closed batches and an open one. */
  ghost predicate Progress(limits: Limits, batches: seq<Batch>, current: Batch, done: seq<WireEvent>) {
    && Flatten(batches) + current == done
    && AllAdmissible(limits, batches) && Greedy(limits, batches)
    && (current == [] ==> batches == [])
    && (current != [] ==> Admissible(limits, current))
    && (current != [] && |batches| > 0 ==> CannotTake(limits, batches[|batches| - 1], current))
  }

  lemma Grow(limits: Limits, batches: seq<Batch>, current: Batch, done: seq<WireEvent>, event: WireEvent)
    requires Progress(limits, batches, current, done) && Admissible(limits, current + [event])
    ensures Progress(limits, batches, current + [event], done + [event])
  {
  }

  lemma Cut(limits: Limits, batches: seq<Batch>, current: Batch, done: seq<WireEvent>, event: WireEvent)
    requires Progress(limits, batches, current, done)
    requires current != [] && !Admissible(limits, current + [event])
    ensures Progress(limits, batches + [current], [event], done + [event])
  {
    FlattenSnoc(batches, current);
    GreedySnoc(limits, batches, current);
  }

  lemma Finish(limits: Limits, batches: seq<Batch>, current: Batch, done: seq<WireEvent>)
    requires Progress(limits, batches, current, done) && current != []
    ensures Flatten(batches + [current]) == done
    ensures AllAdmissible(limits, batches + [current]) && Greedy(limits, batches + [current])
  {
    FlattenSnoc(batches, current);
    GreedySnoc(limits, batches, current);
  }

  /** The source's test against the candidate length, and the length of a fresh batch. */
  lemma CandidateMeans(limits: Limits, current: Batch, event: WireEvent)
    requires limits.emptyLen <= U64_MAX
    ensures var separatorLen := if |current| > 0 then 1 else 0;
            var candidateLen := SatAdd(SatAdd(EstimatedLen(limits.emptyLen, current), separatorLen), event.wireLen);
            && candidateLen == EstimatedLen(limits.emptyLen, current + [event])
            && (Admissible(limits, current + [event])
                <==> |current| == 0 || (|current| < limits.maxEvents && candidateLen <= limits.maxBytes))
    ensures EstimatedLen(limits.emptyLen, [event])
         == SatAdd(SatAdd(EstimatedLen(limits.emptyLen, []), 0), event.wireLen)
  {
    EstimateGrows(limits.emptyLen, current, event);
    EstimateGrows(limits.emptyLen, [], event);
    assert [] + [event] == [event];
  }

  /** The source's loop: its running length is the closed form, and its batches
      partition the input in order, each admissible, none extendable. */
  method SplitEventsBySize(events: seq<WireEvent>, limits: Limits) returns (batches: seq<Batch>)
    requires limits.emptyLen <= U64_MAX
    ensures Flatten(batches) == events
    ensures AllAdmissible(limits, batches)
    ensures Greedy(limits, batches)
  {
    batches := [];
    var current: Batch := [];
    var currentLen := limits.emptyLen;
    for i := 0 to |events|
      invariant Progress(limits, batches, current, events[..i])
      invariant currentLen == EstimatedLen(limits.emptyLen, current)
    {
      var event := events[i];
      CandidateMeans(limits, current, event);
      assert events[..i + 1] == events[..i] + [event];
      var separatorLen := if |current| > 0 then 1 else 0;
      var candidateLen := SatAdd(SatAdd(currentLen, separatorLen), event.wireLen);
      if |current| > 0 && (|current| >= limits.maxEvents || candidateLen > limits.maxBytes) {
        Cut(limits, batches, current, events[..i], event);
        batches := batches + [current];
        current := [];
        currentLen := limits.emptyLen;
      } else {
        Grow(limits, batches, current, events[..i], event);
      }
      separatorLen := if |current| > 0 then 1 else 0;
      currentLen := SatAdd(SatAdd(currentLen, separatorLen), event.wireLen);
      current := current + [event];
    }
    assert events[..|events|] == events;
    if |current| > 0 {
      Finish(limits, batches, current, events);
      batches := batches + [current];
    }
  }

  /** What admissible promises under a positive event limit. */
  lemma AdmissibleMeans(limits: Limits, batch: Batch)
    requires limits.maxEvents >= 1
    ensures Admissible(limits, batch) <==>
              1 <= |batch| <= limits.maxEvents
              && (|batch| >= 2 ==> EstimatedLen(limits.emptyLen, batch) <= limits.maxBytes)
  {
  }

  // ----- no admissible partition is shorter -----

  lemma {:induction false} WireBytesAppend(a: Batch, b: Batch)
    ensures WireBytes(a + b) == WireBytes(a) + WireBytes(b)
  {
    if |b| == 0 {
      assert a + b == a;
    } else {
      WireBytesAppend(a, b[..|b| - 1]);
      assert (a + b)[..|a + b| - 1] == a + b[..|b| - 1];
    }
  }

  /** Any stretch of an admissible batch is admissible. */
  lemma StretchAdmissible(limits: Limits, batch: Batch, lo: nat, hi: nat)
    requires Admissible(limits, batch) && lo < hi <= |batch|
    ensures Admissible(limits, batch[lo..hi])
  {
    WireBytesAppend(batch[..lo], batch[lo..hi]);
    WireBytesAppend(batch[..lo] + batch[lo..hi], batch[hi..]);
    assert batch == batch[..lo] + batch[lo..hi] + batch[hi..];
  }

  lemma TailFacts(limits: Limits, batches: seq<Batch>)
    requires |batches| > 0 && AllAdmissible(limits, batches)
    ensures AllAdmissible(limits, batches[1..]) && |batches[0]| > 0
    ensures Greedy(limits, batches) ==> Greedy(limits, batches[1..])
    ensures Flatten(batches)[..|batches[0]|] == batches[0]
    ensures Flatten(batches)[|batches[0]|..] == Flatten(batches[1..])
  {
    var tail := batches[1..];
    assert forall i | 0 <= i < |tail| :: tail[i] == batches[i + 1];
    if Greedy(limits, batches) {
      forall i | 0 <= i < |tail| - 1 ensures CannotTake(limits, tail[i], tail[i + 1]) {
        assert CannotTake(limits, batches[i + 1], batches[i + 1 + 1]);
      }
    }
  }

  /** An admissible batch that starts inside or at a greedy batch ends no later
      than it. */
  lemma CannotCover(limits: Limits, greedy: seq<Batch>, o: Batch, skip: nat)
    requires |greedy| > 1 && AllAdmissible(limits, greedy) && Greedy(limits, greedy)
    requires Admissible(limits, o) && skip <= |o|
    requires |o| - skip <= |Flatten(greedy)| && o[skip..] == Flatten(greedy)[..|o| - skip]
    ensures |o| <= skip + |greedy[0]|
  {
    var g, next := greedy[0], greedy[1];
    assert CannotTake(limits, greedy[0], greedy[0 + 1]);
    TailFacts(limits, greedy);
    TailFacts(limits, greedy[1..]);
    var all := Flatten(greedy);
    assert all[|g|] == next[0] by {
      assert all[|g|..][0] == Flatten(greedy[1..])[0];
      assert Flatten(greedy[1..])[..|next|][0] == next[0];
    }
    var hi := skip + |g| + 1;
    if hi <= |o| {
      assert o[skip..hi] == o[skip..][..|g| + 1] == all[..|g| + 1];
      assert all[..|g| + 1] == g + [next[0]];
      StretchAdmissible(limits, o, skip, hi);
    }
  }

  /** A greedy partition of a suffix needs no more batches than any admissible
      partition of the whole: the greedy one is never behind. */
  lemma {:induction false} GreedyStaysAhead(limits: Limits, greedy: seq<Batch>, other: seq<Batch>, skip: nat)
    requires AllAdmissible(limits, greedy) && Greedy(limits, greedy) && AllAdmissible(limits, other)
    requires skip <= |Flatten(other)| && Flatten(greedy) == Flatten(other)[skip..]
    ensures |greedy| <= |other|
    decreases |greedy|
  {
    if |greedy| > 0 {
      TailFacts(limits, greedy);
      assert |other| > 0;
      TailFacts(limits, other);
      var all := Flatten(other);
      var g, o := greedy[0], other[0];
      if skip + |g| >= |o| {
        assert all[skip..][|g|..] == all[skip + |g|..] == all[|o|..][skip + |g| - |o|..];
        GreedyStaysAhead(limits, greedy[1..], other[1..], skip + |g| - |o|);
      } else if |greedy| > 1 {
        assert o[skip..] == all[..|o|][skip..] == all[skip..][..|o| - skip];
        CannotCover(limits, greedy, o, skip);
      }
    }
  }

  /** No order-preserving admissible partition of the same events uses fewer
      batches than the splitter. */
  lemma SplitIsMinimal(limits: Limits, batches: seq<Batch>, other: seq<Batch>)
    requires AllAdmissible(limits, batches) && Greedy(limits, batches)
    requires AllAdmissible(limits, other) && Flatten(other) == Flatten(batches)
    ensures |batches| <= |other|
  {
    GreedyStaysAhead(limits, batches, other, 0);
  }

  /** The three clauses of the splitter's contract fix its result. */
  lemma {:induction false} SplitIsUnique(limits: Limits, a: seq<Batch>, b: seq<Batch>)
    requires AllAdmissible(limits, a) && Greedy(limits, a)
    requires AllAdmissible(limits, b) && Greedy(limits, b)
    requires Flatten(a) == Flatten(b)
    ensures a == b
  {
    GreedyStaysAhead(limits, a, b, 0);
    GreedyStaysAhead(limits, b, a, 0);
    if |a| > 0 {
      TailFacts(limits, a);
      TailFacts(limits, b);
      FirstBatchNotShorter(limits, a, b);
      FirstBatchNotShorter(limits, b, a);
      SplitIsUnique(limits, a[1..], b[1..]);
      assert a == [a[0]] + a[1..] && b == [b[0]] + b[1..];
    }
  }

  lemma FirstBatchNotShorter(limits: Limits, a: seq<Batch>, b: seq<Batch>)
    requires |a| > 0 && |b| > 0 && AllAdmissible(limits, a) && AllAdmissible(limits, b)
    requires Greedy(limits, a) && Flatten(a) == Flatten(b)
    ensures |a[0]| >= |b[0]|
  {
    TailFacts(limits, a);
    TailFacts(limits, b);
    assert |a| == 1 ==> Flatten(a) == a[0];
    if |a| > 1 { CannotCover(limits, a, b[0], 0); }
  }
}
