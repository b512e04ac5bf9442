/** Fan-out of runtime configs to the eBPF maps of the observers. Registration and
    fan-out take the registry's lock and then write the maps outside it. */
module ConfigCarriers {

  /** A carrier's map. Configs are named by their publication number; 0 is the
      startup config, written before the carrier registers. `born` is the number
      current at registration, `late` says that the registration's own write of
      it is still to come. */
  datatype Carrier = Carrier(born: nat, held: nat, late: bool)

  /** A carrier after a write of publication `number`, which the kernel takes or not. */
  function Written(c: Carrier, number: nat, ok: bool): Carrier {
    if ok then c.(held := number) else c
  }

  /** A fan-out under way: the carriers copied under the lock, and the next to write. */
  datatype Fanout = Idle | Writing(next: nat, limit: nat)

  datatype Registry = Registry(published: nat, carriers: seq<Carrier>, fanout: Fanout)

  /** The atomic steps: two locked sections and single map writes. Fan-outs come
      from the one polling task, so they do not overlap. */
  datatype Step =
    | Register
    | LateWrite(carrier: nat, ok: bool)
    | Publish
    | FanoutWrite(ok: bool)

  predicate Possible(s: Registry, step: Step) {
    match step
    case Register => true
    case LateWrite(i, _) => i < |s.carriers| && s.carriers[i].late
    case Publish => s.fanout.Idle?
    case FanoutWrite(_) => s.fanout.Writing? && s.fanout.next < s.fanout.limit <= |s.carriers|
  }

  function FanoutFrom(next: nat, limit: nat): Fanout { if next < limit then Writing(next, limit) else Idle }

  function Apply(s: Registry, step: Step): Registry {
    if !Possible(s, step) then s
    else match step
         case Register => s.(carriers := s.carriers + [Carrier(s.published, 0, s.published > 0)])
         case LateWrite(i, ok) =>
           var c := s.carriers[i].(late := false);
           s.(carriers := s.carriers[i := Written(c, c.born, ok)])
         case Publish => s.(published := s.published + 1, fanout := FanoutFrom(0, |s.carriers|))
         case FanoutWrite(ok) =>
           var i := s.fanout.next;
           s.(carriers := s.carriers[i := Written(s.carriers[i], s.published, ok)],
              fanout := FanoutFrom(i + 1, s.fanout.limit))
  }

  const START := Registry(0, [], Idle)

  function Run(trace: seq<Step>): Registry {
    if |trace| == 0 then START else Apply(Run(trace[..|trace| - 1]), trace[|trace| - 1])
  }

  /** A whole fan-out that nothing interrupts; the kernel refuses some writes. */
  function FannedOut(s: Registry, refused: set<nat>): Registry {
    Registry(s.published + 1,
             seq(|s.carriers|, i requires 0 <= i < |s.carriers| =>
               Written(s.carriers[i], s.published + 1, i !in refused)),
             Idle)
  }

  /** No write is outstanding. */
  predicate Quiescent(s: Registry) {
    s.fanout.Idle? && forall c | c in s.carriers :: !c.late
  }

  // ----- the registry as the threads see it -----

  class CarrierRegistry {
    var published: nat
    var carriers: seq<Carrier>
    var fanout: Fanout

    function View(): Registry
      reads this
    {
      Registry(published, carriers, fanout)
    }

    constructor ()
      ensures View() == START
    {
      published, carriers, fanout := 0, [], Idle;
    }

    /** The locked half of `register`: what it returns is written later, unlocked. */
    method RegisterLocked() returns (carrier: nat, current: nat)
      modifies this`carriers
      ensures View() == Apply(old(View()), Register)
      ensures carrier == |old(carriers)| && current == carriers[carrier].born
    {
      carrier, current := |carriers|, published;
      carriers := carriers + [Carrier(current, 0, current > 0)];
    }

    /** The unlocked half of `register`. */
    method WriteLate(carrier: nat, ok: bool)
      requires Possible(View(), LateWrite(carrier, ok))
      modifies this`carriers
      ensures View() == Apply(old(View()), LateWrite(carrier, ok))
    {
      var c := carriers[carrier].(late := false);
      if ok {
        c := c.(held := c.born);
      }
      carriers := carriers[carrier := c];
    }

    /** The locked half of `update_all`: the number of carriers it copied. */
    method PublishLocked() returns (limit: nat)
      requires fanout.Idle?
      modifies this`published, this`fanout
      ensures View() == Apply(old(View()), Publish) && limit == |carriers|
    {
      published := published + 1;
      limit := |carriers|;
      fanout := FanoutFrom(0, limit);
    }

    /** `update_all` when nothing comes between its writes. Reports the carriers
        it could not write. */
    method UpdateAll(refused: set<nat>) returns (failed: seq<nat>)
      requires fanout.Idle?
      modifies this
      ensures View() == FannedOut(old(View()), refused)
      ensures forall i | 0 <= i < |carriers| :: i in failed <==> i in refused
      ensures forall i | i in failed :: i < |carriers|
    {
      var limit := PublishLocked();
      failed := [];
      ghost var before := carriers;
      for i := 0 to limit
        invariant published == old(published) + 1 && fanout == FanoutFrom(i, limit) && limit == |carriers| == |before|
        invariant forall k | 0 <= k < limit ::
                    carriers[k] == if k >= i then before[k] else Written(before[k], published, k !in refused)
        invariant forall k | 0 <= k < i :: k in failed <==> k in refused
        invariant forall k | k in failed :: k < i
      {
        WriteNext(i !in refused);
        if i in refused {
          failed := failed + [i];
        }
      }
    }

    /** One unlocked write of `update_all`. */
    method WriteNext(ok: bool)
      requires Possible(View(), FanoutWrite(ok))
      modifies this`carriers, this`fanout
      ensures View() == Apply(old(View()), FanoutWrite(ok))
    {
      var i := fanout.next;
      var c := carriers[i];
      if ok {
        c := c.(held := published);
      }
      carriers := carriers[i := c];
      fanout := FanoutFrom(i + 1, fanout.limit);
    }
  }

  // ----- every interleaving -----

  /** Step `p` is the registration's own write to carrier `i`, and a fan-out has
      passed the carrier since it registered. */
  ghost predicate LateAfterNewer(trace: seq<Step>, p: nat, i: nat)
    requires p < |trace|
  {
    var s := Run(trace[..p]);
    trace[p] == LateWrite(i, true) && Possible(s, trace[p]) && Reached(s, i) > s.carriers[i].born
  }

  /** Step `p` is a fan-out write to carrier `i`. */
  ghost predicate FanoutTo(trace: seq<Step>, p: nat, i: nat)
    requires p < |trace|
  {
    var s := Run(trace[..p]);
    trace[p].FanoutWrite? && Possible(s, trace[p]) && s.fanout.next == i
  }

  /** The last write to carrier `i` was its registration's own, after a fan-out had
      passed it. */
  ghost predicate Overwritten(trace: seq<Step>, i: nat) {
    exists p: nat :: OverwrittenBy(trace, p, i)
  }

  /** The newest publication whose fan-out has passed carrier `i`, or the one
      current when it registered. */
  ghost function Reached(s: Registry, i: nat): int {
    if s.fanout.Writing? && s.fanout.next <= i < s.fanout.limit then s.published - 1 else s.published
  }

  /** At step `p` the kernel refused carrier `i` a config newer than any its map could
      hold then: a fan-out write, or its registration's own before any fan-out. */
  ghost predicate RefusedAt(trace: seq<Step>, p: nat, i: nat)
    requires p < |trace|
  {
    var s := Run(trace[..p]);
    && Possible(s, trace[p])
    && ((trace[p] == FanoutWrite(false) && s.fanout.next == i)
        || (trace[p] == LateWrite(i, false) && Reached(s, i) == s.carriers[i].born))
  }

  /** At step `p` the kernel took a write to carrier `i`. */
  ghost predicate WrittenAt(trace: seq<Step>, p: nat, i: nat)
    requires p < |trace|
  {
    var s := Run(trace[..p]);
    && Possible(s, trace[p])
    && ((trace[p] == FanoutWrite(true) && s.fanout.next == i) || trace[p] == LateWrite(i, true))
  }

  ghost predicate RefusedBy(trace: seq<Step>, p: nat, i: nat) {
    p < |trace| && RefusedAt(trace, p, i) && forall q: nat | p < q < |trace| :: !WrittenAt(trace, q, i)
  }

  /** A new config was refused, and no write was taken since. */
  ghost predicate Refused(trace: seq<Step>, i: nat) {
    exists p: nat :: RefusedBy(trace, p, i)
  }

  ghost predicate CarrierInvariant(s: Registry, i: nat, overwritten: bool, refused: bool)
    requires i < |s.carriers|
  {
    var c := s.carriers[i];
    var reached := Reached(s, i);
    && c.born <= reached && c.held <= reached
    && (c.late ==> c.born > 0 && !overwritten)
    && (reached == c.born ==> !overwritten)
    && (if refused then c.held < reached
        else c.held == if reached == c.born then (if c.late then 0 else c.born)
                       else if overwritten then c.born
                       else reached)
  }

  ghost predicate RegistryInvariant(s: Registry) {
    s.fanout.Writing? ==> s.published > 0 && s.fanout.next < s.fanout.limit <= |s.carriers|
  }

  ghost predicate OverwrittenBy(trace: seq<Step>, p: nat, i: nat) {
    p < |trace| && LateAfterNewer(trace, p, i) && forall q: nat | p < q < |trace| :: !FanoutTo(trace, q, i)
  }

  lemma {:induction false} PrefixSteps(trace: seq<Step>, i: nat)
    requires |trace| > 0
    ensures forall p: nat | p < |trace| - 1 ::
              LateAfterNewer(trace[..|trace| - 1], p, i) == LateAfterNewer(trace, p, i)
    ensures forall p: nat | p < |trace| - 1 :: FanoutTo(trace[..|trace| - 1], p, i) == FanoutTo(trace, p, i)
    ensures forall p: nat | p < |trace| - 1 :: RefusedAt(trace[..|trace| - 1], p, i) == RefusedAt(trace, p, i)
    ensures forall p: nat | p < |trace| - 1 :: WrittenAt(trace[..|trace| - 1], p, i) == WrittenAt(trace, p, i)
  {
    assert forall p: nat | p < |trace| - 1 :: trace[..|trace| - 1][..p] == trace[..p];
  }

  lemma {:induction false} RefusedStep(trace: seq<Step>, i: nat)
    requires |trace| > 0
    ensures var n := |trace| - 1;
            Refused(trace, i) <==> RefusedAt(trace, n, i) || (Refused(trace[..n], i) && !WrittenAt(trace, n, i))
  {
    var n := |trace| - 1;
    PrefixSteps(trace, i);
    if p: nat :| RefusedBy(trace, p, i) {
      if p < n {
        forall q: nat | p < q < n ensures !WrittenAt(trace[..n], q, i) { assert !WrittenAt(trace, q, i); }
        assert RefusedBy(trace[..n], p, i);
        assert !WrittenAt(trace, n, i);
      }
    }
    if p: nat :| RefusedBy(trace[..n], p, i) {
      if !WrittenAt(trace, n, i) { assert RefusedBy(trace, p, i); }
    }
    if RefusedAt(trace, n, i) { assert RefusedBy(trace, n, i); }
  }

  lemma {:induction false} OverwrittenStep(trace: seq<Step>, i: nat)
    requires |trace| > 0
    ensures var n := |trace| - 1;
            Overwritten(trace, i) <==>
              LateAfterNewer(trace, n, i) || (Overwritten(trace[..n], i) && !FanoutTo(trace, n, i))
  {
    var n := |trace| - 1;
    PrefixSteps(trace, i);
    if p: nat :| OverwrittenBy(trace, p, i) {
      if p < n {
        forall q: nat | p < q < n ensures !FanoutTo(trace[..n], q, i) { assert !FanoutTo(trace, q, i); }
        assert OverwrittenBy(trace[..n], p, i);
        assert !FanoutTo(trace, n, i);
      }
    }
    if p: nat :| OverwrittenBy(trace[..n], p, i) {
      if !FanoutTo(trace, n, i) { assert OverwrittenBy(trace, p, i); }
    }
    if LateAfterNewer(trace, n, i) { assert OverwrittenBy(trace, n, i); }
  }

  lemma {:induction false} NotYetWritten(trace: seq<Step>, i: nat)
    requires i >= |Run(trace).carriers|
    ensures !Overwritten(trace, i) && !Refused(trace, i)
  {
    if |trace| > 0 {
      RegistryStaysWellFormed(trace[..|trace| - 1]);
      NotYetWritten(trace[..|trace| - 1], i);
      OverwrittenStep(trace, i);
      RefusedStep(trace, i);
    }
  }

  lemma {:induction false} StepKeepsInvariant(s: Registry, step: Step, i: nat, overwritten: bool, refused: bool)
    requires i < |s.carriers| && RegistryInvariant(s) && CarrierInvariant(s, i, overwritten, refused)
    ensures RegistryInvariant(Apply(s, step)) && i < |Apply(s, step).carriers|
    ensures var late := step == LateWrite(i, true) && Possible(s, step) && Reached(s, i) > s.carriers[i].born;
            var fanout := step.FanoutWrite? && Possible(s, step) && s.fanout.next == i;
            var refusal := Possible(s, step)
                           && ((step == FanoutWrite(false) && s.fanout.next == i)
                               || (step == LateWrite(i, false) && Reached(s, i) == s.carriers[i].born));
            var written := Possible(s, step)
                           && ((step == FanoutWrite(true) && s.fanout.next == i) || step == LateWrite(i, true));
            CarrierInvariant(Apply(s, step), i, late || (overwritten && !fanout), refusal || (refused && !written))
  {
  }

  lemma {:induction false} RegistryStaysWellFormed(trace: seq<Step>)
    ensures RegistryInvariant(Run(trace))
  {
    if |trace| > 0 { RegistryStaysWellFormed(trace[..|trace| - 1]); }
  }

  lemma {:induction false} CarriersKeepInvariant(trace: seq<Step>, i: nat)
    requires i < |Run(trace).carriers|
    ensures CarrierInvariant(Run(trace), i, Overwritten(trace, i), Refused(trace, i))
  {
    if |trace| > 0 {
      var n := |trace| - 1;
      RegistryStaysWellFormed(trace[..n]);
      OverwrittenStep(trace, i);
      RefusedStep(trace, i);
      if i < |Run(trace[..n]).carriers| {
        CarriersKeepInvariant(trace[..n], i);
        StepKeepsInvariant(Run(trace[..n]), trace[n], i, Overwritten(trace[..n], i), Refused(trace[..n], i));
      } else {
        NotYetWritten(trace[..n], i);
      }
    }
  }

  /** Once every write is done, a carrier holds the newest config exactly unless the
      kernel refused it one and took no write since, or its registration's own
      write was the last and came after a fan-out; and without such a refusal it
      holds a config no older than the one current when it registered. */
  lemma {:induction false} QuiescentCarriers(trace: seq<Step>, i: nat)
    requires Quiescent(Run(trace)) && i < |Run(trace).carriers|
    ensures var s := Run(trace);
            var c := s.carriers[i];
            && (c.held == s.published <==> !Overwritten(trace, i) && !Refused(trace, i))
            && (!Refused(trace, i) ==> c.held == (if Overwritten(trace, i) then c.born else s.published) >= c.born)
  {
    CarriersKeepInvariant(trace, i);
    assert Run(trace).carriers[i] in Run(trace).carriers;
    if Overwritten(trace, i) { assert Run(trace).carriers[i].born < Run(trace).published; }
  }

  /** Published at most once, the config reaches every carrier that is not refused it. */
  lemma {:induction false} SinglePublicationReachesAll(trace: seq<Step>, i: nat)
    requires Quiescent(Run(trace)) && i < |Run(trace).carriers| && Run(trace).published <= 1
    ensures Run(trace).carriers[i].held == Run(trace).published <==> !Refused(trace, i)
  {
    QuiescentCarriers(trace, i);
    CarriersKeepInvariant(trace, i);
    if Overwritten(trace, i) { OverwrittenWasLate(trace, i); }
  }

  /** Only a registration that found a config already published writes late. */
  lemma {:induction false} OverwrittenWasLate(trace: seq<Step>, i: nat)
    requires Overwritten(trace, i) && i < |Run(trace).carriers|
    ensures Run(trace).carriers[i].born > 0
  {
    var n := |trace| - 1;
    OverwrittenStep(trace, i);
    if i < |Run(trace[..n]).carriers| {
      CarriersKeepInvariant(trace[..n], i);
      if Overwritten(trace[..n], i) { OverwrittenWasLate(trace[..n], i); }
    } else {
      NotYetWritten(trace[..n], i);
    }
  }

  /** A registration, two publications around it and its write last: the carrier
      is left with the older config. */
  lemma {:induction false} LateWriteGoesStale() returns (trace: seq<Step>)
    ensures Quiescent(Run(trace)) && |Run(trace).carriers| == 1 && !Refused(trace, 0)
    ensures Run(trace).published == 2 && Run(trace).carriers[0].held == 1
  {
    trace := [] + [Publish] + [Register] + [Publish] + [FanoutWrite(true)] + [LateWrite(0, true)];
    RunSnoc([], Publish);
    RunSnoc([] + [Publish], Register);
    RunSnoc([] + [Publish] + [Register], Publish);
    RunSnoc([] + [Publish] + [Register] + [Publish], FanoutWrite(true));
    RunSnoc([] + [Publish] + [Register] + [Publish] + [FanoutWrite(true)], LateWrite(0, true));
    NothingRefused(trace, 0);
  }

  lemma {:induction false} NothingRefused(trace: seq<Step>, i: nat)
    requires forall p: nat | p < |trace| :: trace[p] != FanoutWrite(false) && trace[p] != LateWrite(i, false)
    ensures !Refused(trace, i)
  {
  }

  /** A publication that nothing interrupts is a run of the atomic steps. */
  lemma {:induction false} FannedOutIsRun(trace: seq<Step>, refused: set<nat>) returns (longer: seq<Step>)
    requires Run(trace).fanout.Idle?
    ensures Run(longer) == FannedOut(Run(trace), refused)
  {
    var s := Run(trace);
    RunSnoc(trace, Publish);
    longer := trace + [Publish];
    for i := 0 to |s.carriers|
      invariant Run(longer).published == s.published + 1 && |Run(longer).carriers| == |s.carriers|
      invariant Run(longer).fanout == FanoutFrom(i, |s.carriers|)
      invariant forall k | 0 <= k < |s.carriers| :: Run(longer).carriers[k] ==
                  if k >= i then s.carriers[k] else Written(s.carriers[k], s.published + 1, k !in refused)
    {
      RunSnoc(longer, FanoutWrite(i !in refused));
      longer := longer + [FanoutWrite(i !in refused)];
    }
  }

  lemma {:induction false} RunSnoc(trace: seq<Step>, step: Step)
    ensures Run(trace + [step]) == Apply(Run(trace), step)
  {
    assert (trace + [step])[..|trace|] == trace;
  }
}
