/** The controller's gap and regression accounting for one agent's event batches. */
module SequenceTracking {
  import opened Decimal
  import opened MachineInt

  datatype Tracking = Tracking(lastSeen: Option<nat>, gapsTotal: nat, regressionsTotal: nat)

  const FRESH := Tracking(None, 0, 0)

  /** One accepted batch. */
  function Track(t: Tracking, sequence: nat): Tracking {
    match t.lastSeen
    case None => t.(lastSeen := Some(sequence))
    case Some(last) =>
      if sequence == SatAdd(last, 1) then t.(lastSeen := Some(sequence))
      else if sequence > SatAdd(last, 1) then
        t.(gapsTotal := SatAdd(t.gapsTotal, SatSub(sequence, SatAdd(last, 1))), lastSeen := Some(sequence))
      else t.(regressionsTotal := SatAdd(t.regressionsTotal, 1))
  }

  /** The accounting of one hello epoch: what was accepted since, in order of arrival. */
  function TrackAll(arrivals: seq<nat>): Tracking {
    if |arrivals| == 0 then FRESH
    else Track(TrackAll(arrivals[..|arrivals| - 1]), arrivals[|arrivals| - 1])
  }

  // ----- reference counting -----

  ghost function Max(s: seq<nat>): nat
    requires |s| > 0
  {
    if |s| == 1 then s[0]
    else
      var m := Max(s[..|s| - 1]);
      if s[|s| - 1] > m then s[|s| - 1] else m
  }

  lemma {:induction false} MaxBounds(s: seq<nat>)
    requires |s| > 0
    ensures forall i | 0 <= i < |s| :: s[i] <= Max(s)
  {
    if |s| > 1 {
      MaxBounds(s[..|s| - 1]);
      assert forall i | 0 <= i < |s| - 1 :: s[..|s| - 1][i] == s[i];
    }
  }

  /** Every element is below the bound. */
  ghost predicate Below(s: seq<nat>, bound: nat) {
    |s| == 0 || (Below(s[..|s| - 1], bound) && s[|s| - 1] < bound)
  }

  ghost function Range(lo: nat, hi: int): (r: set<nat>)
    ensures forall x :: x in r <==> lo <= x <= hi
    ensures |r| == if lo <= hi then hi + 1 - lo else 0
    decreases hi
  {
    if lo > hi then {} else if hi == 0 then {0} else Range(lo, hi - 1) + {hi}
  }

  ghost function ToSet(s: seq<nat>): set<nat> { set x | x in s }

  /** The first arrival and every later one above all before it. */
  ghost function Records(s: seq<nat>): set<nat> {
    if |s| == 0 then {}
    else if |s| == 1 then {s[0]}
    else Records(s[..|s| - 1]) + (if s[|s| - 1] > Max(s[..|s| - 1]) then {s[|s| - 1]} else {})
  }

  lemma {:induction false} RecordsInRange(s: seq<nat>)
    requires |s| > 0
    ensures Records(s) <= Range(s[0], Max(s)) && Max(s) in Records(s) && s[0] in Records(s)
    ensures 1 <= |Records(s)| <= Max(s) - s[0] + 1
  {
    if |s| > 1 { RecordsInRange(s[..|s| - 1]); }
    SubsetSize(Records(s), Range(s[0], Max(s)));
    SubsetSize({s[0]}, Records(s));
  }

  /** One more arrival either raises the largest and is a record, or neither. */
  lemma {:induction false} RecordStep(s: seq<nat>)
    requires |s| > 1
    ensures var before, last := s[..|s| - 1], s[|s| - 1];
            if last > Max(before) then Max(s) == last && |Records(s)| == |Records(before)| + 1
            else Max(s) == Max(before) && Records(s) == Records(before)
  {
    RecordsInRange(s[..|s| - 1]);
  }

  /** Arrivals that are u64 numbers. */
  ghost predicate AllU64(s: seq<nat>) { Below(s, U64_MAX + 1) }

  /** How often the largest u64 number arrived. */
  ghost function Tops(s: seq<nat>): nat {
    if |s| == 0 then 0 else Tops(s[..|s| - 1]) + (if s[|s| - 1] == U64_MAX then 1 else 0)
  }

  /** Its repeats, which the source takes for next batches. */
  ghost function Uncounted(s: seq<nat>): nat { if Tops(s) > 1 then Tops(s) - 1 else 0 }

  lemma {:induction false} TopIsMax(s: seq<nat>)
    requires |s| > 0 && AllU64(s)
    ensures Max(s) <= U64_MAX && (Tops(s) > 0 <==> Max(s) == U64_MAX)
  {
    if |s| > 1 {
      TopIsMax(s[..|s| - 1]);
    } else {
      assert Tops(s[..0]) == 0;
    }
  }

  /** The counters in terms of the first number, the largest, how many of the
      arrivals were new highs, and how many repeats of the top were taken for next
      batches. */
  predicate Counts(t: Tracking, first: nat, max: nat, records: nat, length: nat, uncounted: nat) {
    && t.lastSeen == Some(max) && first <= max <= U64_MAX
    && 1 <= records && (first < max ==> 2 <= records)
    && t.gapsTotal == max - first + 1 - records
    && t.regressionsTotal == Clamp(length - records - uncounted)
  }

  lemma {:induction false} CountStep(
    t: Tracking, first: nat, max: nat, records: nat, length: nat, uncounted: nat, sequence: nat)
    requires Counts(t, first, max, records, length, uncounted) && sequence <= U64_MAX
    ensures if sequence > max then Counts(Track(t, sequence), first, sequence, records + 1, length + 1, uncounted)
            else if sequence == U64_MAX then Counts(Track(t, sequence), first, max, records, length + 1, uncounted + 1)
            else Counts(Track(t, sequence), first, max, records, length + 1, uncounted)
  {
    TrackStep(t, sequence);
  }

  lemma {:induction false} CountersFollowRecords(s: seq<nat>)
    requires |s| > 0 && AllU64(s)
    ensures Counts(TrackAll(s), s[0], Max(s), |Records(s)|, |s|, Uncounted(s))
  {
    var n := |s| - 1;
    if n == 0 {
      assert TrackAll(s[..0]) == FRESH && Tops(s[..0]) == 0;
    } else {
      CountersFollowRecords(s[..n]);
      RecordStep(s);
      TopIsMax(s[..n]);
      CountStep(TrackAll(s[..n]), s[0], Max(s[..n]), |Records(s[..n])|, n, Uncounted(s[..n]), s[n]);
    }
  }

  function Clamp(n: int): int { if n > U64_MAX then U64_MAX else n }

  /** One accepted batch, without the saturating operators. */
  lemma {:induction false} TrackStep(t: Tracking, sequence: nat)
    requires t.lastSeen.Some? && t.lastSeen.value <= U64_MAX && sequence <= U64_MAX
    requires t.gapsTotal <= t.lastSeen.value
    ensures var last := t.lastSeen.value;
            Track(t, sequence) ==
              if sequence > last then Tracking(Some(sequence), t.gapsTotal + (sequence - last - 1), t.regressionsTotal)
              else if sequence == U64_MAX then t
              else t.(regressionsTotal := Clamp(t.regressionsTotal + 1))
  {
  }

  /** In any order of arrival: the last seen sequence is the largest, gaps are the
      numbers from first to largest that never arrived as a new high, the gap
      counter never saturates, and regressions are the arrivals that were no new
      high, without the repeats of u64::MAX. */
  lemma {:induction false} TrackingCounts(s: seq<nat>)
    requires |s| > 0 && AllU64(s)
    ensures TrackAll(s).lastSeen == Some(Max(s))
    ensures TrackAll(s).gapsTotal == |Range(s[0], Max(s)) - Records(s)| < U64_MAX
    ensures TrackAll(s).regressionsTotal == Clamp(|s| - |Records(s)| - Uncounted(s))
  {
    CountersFollowRecords(s);
    RecordsInRange(s);
    CountsMean(TrackAll(s), s[0], Max(s), Records(s), |s|, Uncounted(s));
  }

  lemma {:induction false} CountsMean(
    t: Tracking, lo: nat, hi: nat, records: set<nat>, length: nat, uncounted: nat)
    requires records <= Range(lo, hi) && Counts(t, lo, hi, |records|, length, uncounted)
    ensures t.lastSeen == Some(hi) && t.gapsTotal == |Range(lo, hi) - records| < U64_MAX
    ensures t.regressionsTotal == Clamp(length - |records| - uncounted)
  {
    RangeWithout(lo, hi, records);
  }

  /** Regressions count every arrival that was no new high exactly when u64::MAX was
      accepted at most once (or the counter is full anyway). */
  lemma {:induction false} RegressionsIff(s: seq<nat>)
    requires |s| > 0 && AllU64(s)
    ensures TrackAll(s).regressionsTotal == Clamp(|s| - |Records(s)|)
       <==> Tops(s) <= 1 || |s| - |Records(s)| - Uncounted(s) >= U64_MAX
  {
    TrackingCounts(s);
  }

  lemma {:induction false} NoTops(s: seq<nat>)
    requires Below(s, U64_MAX)
    ensures AllU64(s) && Tops(s) == 0
  {
    if |s| > 0 { NoTops(s[..|s| - 1]); }
  }

  /** Every arrival from the first number on is a new high or a repeat. */
  ghost predicate NoLateArrival(s: seq<nat>)
    requires |s| > 0
  {
    |s| == 1
    || (NoLateArrival(s[..|s| - 1])
        && (s[0] <= s[|s| - 1] <= Max(s[..|s| - 1]) ==> s[|s| - 1] in s[..|s| - 1]))
  }

  /** The numbers from first to largest that never arrived. */
  ghost function Missing(s: seq<nat>): set<nat>
    requires |s| > 0
  {
    Range(s[0], Max(s)) - ToSet(s)
  }

  /** Every arrival from the first number on was once a new high. */
  ghost predicate AllRecords(s: seq<nat>)
    requires |s| > 0
  {
    forall i | 0 <= i < |s| && s[0] <= s[i] :: s[i] in Records(s)
  }

  lemma {:induction false} RecordsComplete(s: seq<nat>)
    requires |s| > 0
    ensures NoLateArrival(s) <==> AllRecords(s)
    ensures Records(s) <= ToSet(s)
  {
    if |s| > 1 {
      var n := |s| - 1;
      RecordsComplete(s[..n]);
      RecordStep(s);
      AllRecordsStep(s);
    }
  }

  lemma {:induction false} AllRecordsStep(s: seq<nat>)
    requires |s| > 1 && Records(s[..|s| - 1]) <= ToSet(s[..|s| - 1])
    ensures var before, last := s[..|s| - 1], s[|s| - 1];
            AllRecords(s) <==> AllRecords(before) && (s[0] <= last <= Max(before) ==> last in Records(before))
    ensures AllRecords(s[..|s| - 1]) && s[0] <= s[|s| - 1] <= Max(s[..|s| - 1]) ==>
              (s[|s| - 1] in Records(s[..|s| - 1]) <==> s[|s| - 1] in s[..|s| - 1])
    ensures Records(s) <= ToSet(s)
  {
    var n := |s| - 1;
    var before, last := s[..n], s[n];
    MaxBounds(before);
    assert forall i | 0 <= i < n :: before[i] == s[i];
    assert Records(s) == Records(before) + (if last > Max(before) then {last} else {});
    if AllRecords(s) {
      forall i | 0 <= i < n && before[0] <= before[i] ensures before[i] in Records(before) {
        assert s[i] in Records(s);
      }
    }
  }

  /** The gap counter is the number of batches in between that were never
      accepted exactly when no batch arrived late for the first time. */
  lemma {:induction false} GapsAreMissing(s: seq<nat>)
    requires |s| > 0 && AllU64(s)
    ensures TrackAll(s).gapsTotal == |Missing(s)| <==> NoLateArrival(s)
    ensures TrackAll(s).gapsTotal >= |Missing(s)|
  {
    TrackingCounts(s);
    RecordsComplete(s);
    var uncounted := Range(s[0], Max(s)) - Records(s);
    SubsetSize(Missing(s), uncounted);
    MissingIsUncounted(s, uncounted);
  }

  lemma {:induction false} MissingIsUncounted(s: seq<nat>, uncounted: set<nat>)
    requires |s| > 0 && uncounted == Range(s[0], Max(s)) - Records(s) && Records(s) <= ToSet(s)
    ensures Missing(s) == uncounted <==> AllRecords(s)
  {
    MaxBounds(s);
    SameRest(Records(s), ToSet(s), s[0], Max(s));
    AllRecordsAsSets(s, Records(s));
  }

  lemma {:induction false} SameRest(records: set<nat>, all: set<nat>, lo: nat, hi: nat)
    requires records <= all && forall x | x in all :: x <= hi
    ensures Range(lo, hi) - all == Range(lo, hi) - records <==> forall x | x in all && lo <= x :: x in records
  {
    var range := Range(lo, hi);
    if range - all == range - records {
      forall x | x in all && lo <= x ensures x in records { assert x !in range - all; }
    }
  }

  lemma {:induction false} AllRecordsAsSets(s: seq<nat>, records: set<nat>)
    ensures (forall i | 0 <= i < |s| && s[0] <= s[i] :: s[i] in records)
       <==> (forall x | x in ToSet(s) && s[0] <= x :: x in records)
  {
    if forall x | x in ToSet(s) && s[0] <= x :: x in records {
      forall i | 0 <= i < |s| && s[0] <= s[i] ensures s[i] in records { assert s[i] in ToSet(s); }
    }
  }

  lemma {:induction false} RangeWithout(lo: nat, hi: nat, some: set<nat>)
    requires lo <= hi && some <= Range(lo, hi)
    ensures |Range(lo, hi) - some| == hi + 1 - lo - |some|
  {
  }

  lemma {:induction false} SubsetSize(a: set<nat>, b: set<nat>)
    requires a <= b
    ensures |a| <= |b| && (|a| == |b| <==> a == b)
  {
    assert b == a + (b - a);
    assert |b| == |a| + |b - a|;
  }

  /** At the top of u64 a repeat is taken for the next batch and not counted. */
  lemma {:induction false} RepeatIsCounted(t: Tracking, last: nat)
    requires t.lastSeen == Some(last) && last <= U64_MAX && t.regressionsTotal < U64_MAX
    ensures Track(t, last).regressionsTotal == t.regressionsTotal + 1 <==> last < U64_MAX
  {
  }

  // ----- arrivals of a worker that retries -----

  /** Batches numbered from `start`, the i-th of them accepted `accepted[i]` times
      in a row: no attempt of a batch overtakes one of an earlier batch. */
  ghost function Arrivals(start: nat, accepted: seq<nat>): seq<nat> {
    if |accepted| == 0 then []
    else Arrivals(start, accepted[..|accepted| - 1])
         + Copies(start + |accepted| - 1, accepted[|accepted| - 1])
  }

  ghost function Copies(x: nat, k: nat): (c: seq<nat>)
    ensures |c| == k && forall i | 0 <= i < k :: c[i] == x
  {
    if k == 0 then [] else Copies(x, k - 1) + [x]
  }

  /** Deliveries beyond the first of each batch. */
  ghost function Repeats(accepted: seq<nat>): nat {
    if |accepted| == 0 then 0
    else Repeats(accepted[..|accepted| - 1])
         + (if accepted[|accepted| - 1] > 1 then accepted[|accepted| - 1] - 1 else 0)
  }

  predicate NeverAccepted(start: nat, accepted: seq<nat>, sequence: nat) {
    start <= sequence < start + |accepted| && accepted[sequence - start] == 0
  }

  /** Never falling. */
  ghost predicate Ordered(s: seq<nat>) {
    |s| <= 1 || (Ordered(s[..|s| - 1]) && s[|s| - 2] <= s[|s| - 1])
  }

  ghost predicate OnlyAccepted(start: nat, accepted: seq<nat>, s: seq<nat>) {
    forall i | 0 <= i < |s| :: start <= s[i] < start + |accepted| && !NeverAccepted(start, accepted, s[i])
  }

  lemma {:induction false} OrderedCopies(a: seq<nat>, x: nat, k: nat)
    requires Ordered(a) && (|a| == 0 || a[|a| - 1] <= x)
    ensures Ordered(a + Copies(x, k))
  {
    if k == 0 {
      assert a + Copies(x, k) == a;
    } else {
      OrderedCopies(a, x, k - 1);
      OrderedSnoc(a + Copies(x, k - 1), x);
      assert a + Copies(x, k) == a + Copies(x, k - 1) + [x];
    }
  }

  lemma {:induction false} OrderedSnoc(s: seq<nat>, x: nat)
    requires Ordered(s) && (|s| == 0 || s[|s| - 1] <= x)
    ensures Ordered(s + [x])
  {
    assert (s + [x])[..|s|] == s;
  }

  lemma {:induction false} TailKeeps(before: seq<nat>, tail: seq<nat>, bound: nat)
    requires Ordered(before + tail) && Below(before + tail, bound)
    ensures Ordered(tail) && Below(tail, bound)
  {
    var n := |tail| - 1;
    if n >= 0 {
      assert (before + tail)[..|before| + n] == before + tail[..n];
      TailKeeps(before, tail[..n], bound);
    }
  }

  /** What arrives: the accepted batches, in order, repeats next to each other. */
  lemma {:induction false} ArrivalsOrdered(start: nat, accepted: seq<nat>)
    ensures OnlyAccepted(start, accepted, Arrivals(start, accepted))
    ensures Ordered(Arrivals(start, accepted))
  {
    if |accepted| > 0 {
      ArrivalsOrdered(start, accepted[..|accepted| - 1]);
      ArrivalsGrow(start, accepted, Arrivals(start, accepted[..|accepted| - 1]));
    }
  }

  lemma {:induction false} ArrivalsGrow(start: nat, accepted: seq<nat>, before: seq<nat>)
    requires |accepted| > 0 && OnlyAccepted(start, accepted[..|accepted| - 1], before) && Ordered(before)
    ensures var after := before + Copies(start + |accepted| - 1, accepted[|accepted| - 1]);
            OnlyAccepted(start, accepted, after) && Ordered(after)
  {
    var n := |accepted| - 1;
    OnlyAcceptedGrows(start, accepted, before);
    OnlyAcceptedAvoids(start, accepted[..n], before, start + n);
    OrderedCopies(before, start + n, accepted[n]);
  }

  lemma {:induction false} OnlyAcceptedGrows(start: nat, accepted: seq<nat>, before: seq<nat>)
    requires |accepted| > 0 && OnlyAccepted(start, accepted[..|accepted| - 1], before)
    ensures OnlyAccepted(start, accepted, before + Copies(start + |accepted| - 1, accepted[|accepted| - 1]))
  {
    forall i | 0 <= i < |before| ensures !NeverAccepted(start, accepted, before[i]) {
      assert !NeverAccepted(start, accepted[..|accepted| - 1], before[i]);
    }
  }

  lemma {:induction false} OnlyAcceptedAvoids(start: nat, accepted: seq<nat>, s: seq<nat>, x: nat)
    requires OnlyAccepted(start, accepted, s) && start + |accepted| <= x
    ensures x !in s && (|s| > 0 ==> s[|s| - 1] < x)
  {
  }

  lemma {:induction false} OnlyAcceptedBelow(start: nat, accepted: seq<nat>, s: seq<nat>, bound: nat)
    requires OnlyAccepted(start, accepted, s) && start + |accepted| <= bound
    ensures Below(s, bound)
  {
    if |s| > 0 { OnlyAcceptedBelow(start, accepted, s[..|s| - 1], bound); }
  }

  lemma {:induction false} AcceptedArrive(start: nat, accepted: seq<nat>, k: nat)
    requires k < |accepted| && accepted[k] > 0
    ensures start + k in Arrivals(start, accepted)
  {
    var n := |accepted| - 1;
    if k < n {
      AcceptedArrive(start, accepted[..n], k);
    } else {
      assert Copies(start + n, accepted[n])[0] == start + n;
    }
  }

  lemma {:induction false} AppendCopies(a: seq<nat>, x: nat, k: nat)
    requires x !in a
    ensures |ToSet(a + Copies(x, k))| == |ToSet(a)| + (if k > 0 then 1 else 0)
  {
    if k > 0 {
      assert Copies(x, k)[0] == x;
      assert ToSet(a + Copies(x, k)) == ToSet(a) + {x};
    } else {
      assert a + Copies(x, k) == a;
    }
  }

  lemma {:induction false} ArrivalCount(start: nat, accepted: seq<nat>)
    ensures |Arrivals(start, accepted)| == |ToSet(Arrivals(start, accepted))| + Repeats(accepted)
  {
    if |accepted| > 0 {
      var n := |accepted| - 1;
      ArrivalCount(start, accepted[..n]);
      ArrivalsOrdered(start, accepted[..n]);
      OnlyAcceptedAvoids(start, accepted[..n], Arrivals(start, accepted[..n]), start + n);
      AppendCopies(Arrivals(start, accepted[..n]), start + n, accepted[n]);
    }
  }

  lemma {:induction false} OrderedRecords(s: seq<nat>)
    requires |s| > 0 && Ordered(s)
    ensures Max(s) == s[|s| - 1] && Records(s) == ToSet(s)
  {
    if |s| > 1 {
      var n := |s| - 1;
      OrderedRecords(s[..n]);
      OrderedStep(s[..n], s[n]);
      assert s == s[..n] + [s[n]];
    }
  }

  lemma {:induction false} OrderedStep(before: seq<nat>, last: nat)
    requires |before| > 0 && Max(before) == before[|before| - 1] <= last && Records(before) == ToSet(before)
    ensures Max(before + [last]) == last && Records(before + [last]) == ToSet(before + [last])
  {
    var s := before + [last];
    assert s[..|s| - 1] == before;
    assert Records(s) == Records(before) + (if last > Max(before) then {last} else {});
    assert ToSet(s) == ToSet(before) + {last};
  }

  /** Arrivals in order of their numbers: gaps are exactly the numbers in between
      that never arrived, and regressions exactly the repeats. */
  lemma {:induction false} OrderedIsCounted(s: seq<nat>)
    requires |s| > 0 && Ordered(s) && Below(s, U64_MAX)
    ensures TrackAll(s).gapsTotal == |Range(s[0], s[|s| - 1]) - ToSet(s)|
    ensures TrackAll(s).regressionsTotal == Clamp(|s| - |ToSet(s)|)
  {
    OrderedRecords(s);
    AllRecordsCount(s, s[|s| - 1], ToSet(s));
  }

  lemma {:induction false} AllRecordsCount(s: seq<nat>, last: nat, all: set<nat>)
    requires |s| > 0 && Below(s, U64_MAX) && Max(s) == last && Records(s) == all
    ensures TrackAll(s).gapsTotal == |Range(s[0], last) - all|
    ensures TrackAll(s).regressionsTotal == Clamp(|s| - |all|)
  {
    NoTops(s);
    TrackingCounts(s);
  }

  /** For a worker whose attempts arrive in order: gaps are exactly the batches
      between the first and the last accepted one that were never accepted, and
      regressions exactly the repeat deliveries its retries caused. */
  lemma {:induction false} RetriesAreCounted(start: nat, accepted: seq<nat>, arrivals: seq<nat>)
    requires start + |accepted| <= U64_MAX && arrivals == Arrivals(start, accepted) && arrivals != []
    ensures TrackAll(arrivals).gapsTotal == |Skipped(start, accepted, arrivals[0], arrivals[|arrivals| - 1])|
    ensures TrackAll(arrivals).regressionsTotal == Clamp(Repeats(accepted))
  {
    ArrivalsOrdered(start, accepted);
    ArrivalCount(start, accepted);
    OnlyAcceptedBelow(start, accepted, arrivals, U64_MAX);
    OrderedIsCounted(arrivals);
    UnrecordedIsSkipped(start, accepted, arrivals);
  }

  /** The numbers in a range of which no post was accepted. */
  ghost function Skipped(start: nat, accepted: seq<nat>, lo: nat, hi: nat): set<nat> {
    set x | x in Range(lo, hi) && NeverAccepted(start, accepted, x)
  }

  lemma {:induction false} UnrecordedIsSkipped(start: nat, accepted: seq<nat>, arrivals: seq<nat>)
    requires arrivals == Arrivals(start, accepted) && arrivals != [] && OnlyAccepted(start, accepted, arrivals)
    ensures var lo, hi := arrivals[0], arrivals[|arrivals| - 1];
            Range(lo, hi) - ToSet(arrivals) == Skipped(start, accepted, lo, hi)
  {
    var lo, hi := arrivals[0], arrivals[|arrivals| - 1];
    assert start <= lo && hi < start + |accepted|;
    forall x | x in Range(lo, hi) ensures x !in ToSet(arrivals) <==> NeverAccepted(start, accepted, x) {
      ArrivesIff(start, accepted, arrivals, x);
    }
  }

  lemma {:induction false} ArrivesIff(start: nat, accepted: seq<nat>, arrivals: seq<nat>, x: nat)
    requires arrivals == Arrivals(start, accepted) && OnlyAccepted(start, accepted, arrivals)
    requires start <= x < start + |accepted|
    ensures x in arrivals <==> !NeverAccepted(start, accepted, x)
  {
    if accepted[x - start] > 0 { AcceptedArrive(start, accepted, x - start); }
  }
}
