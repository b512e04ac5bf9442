/** The per-connection RTT baseline learner and spike test of the network handler,
    in u32 arithmetic. */
module RttBaseline {
  import opened Decimal
  import opened KernelConfig
  import opened MachineInt

  const RTT_BOUND: int := 0x2000_0000  // srtt_us is a u32 and holds eight times the RTT
  const STALE_THRESHOLD_NS: nat := 3_600_000_000_000
  const MAX_BASELINE_US: nat := 100_000
  const EXACT_RTT_MAX: nat := 42_949_672

  datatype Phase = Learning | Stable

  datatype Baseline = Baseline(baselineUs: nat, sampleCount: nat, phase: Phase, lastUpdateNs: nat, lastActivityNs: nat)

  datatype Sample = Sample(config: TapioConfig, rttUs: nat, nowNs: nat)

  /** Arithmetic of the learner: the source's wraps at 2^32, the reference's does not. */
  datatype Arithmetic = Wrapping | Exact

  function Reduce(arithmetic: Arithmetic, x: nat): nat {
    if arithmetic == Wrapping then x % U32 else x
  }

  function NextCount(count: nat): (next: nat)
    ensures next > 0
  {
    if count < 255 then count + 1 else count
  }

  function LearningSamples(config: TapioConfig): nat {
    if config.rttMinBaselineSamples > 255 then 255 else config.rttMinBaselineSamples
  }

  /** Running mean after one more sample. */
  function Mean(arithmetic: Arithmetic, baselineUs: nat, count: nat, rttUs: nat): nat
    requires count > 0
  {
    Reduce(arithmetic, Reduce(arithmetic, baselineUs * (count - 1)) + rttUs) / count
  }

  function Learn(arithmetic: Arithmetic, b: Baseline, sample: Sample): Baseline {
    var count := NextCount(b.sampleCount);
    var mean := Mean(arithmetic, b.baselineUs, count, sample.rttUs);
    var samples := LearningSamples(sample.config);
    if samples > 0 && count >= samples then
      if mean > MAX_BASELINE_US then b.(baselineUs := 0, sampleCount := 0, lastActivityNs := sample.nowNs)
      else b.(baselineUs := mean, sampleCount := count, phase := Stable, lastActivityNs := sample.nowNs)
    else b.(baselineUs := mean, sampleCount := count, lastActivityNs := sample.nowNs)
  }

  function Refresh(arithmetic: Arithmetic, b: Baseline, sample: Sample): Baseline {
    if (sample.nowNs - b.lastUpdateNs) % U64 > STALE_THRESHOLD_NS then
      b.(baselineUs := Reduce(arithmetic, Reduce(arithmetic, b.baselineUs * 9) + sample.rttUs) / 10,
         lastUpdateNs := sample.nowNs, lastActivityNs := sample.nowNs)
    else b.(lastActivityNs := sample.nowNs)
  }

  /** The entry of a connection after an RTT sample. */
  function Observe(arithmetic: Arithmetic, entry: Option<Baseline>, sample: Sample): Baseline {
    match entry
    case None => Baseline(sample.rttUs, 1, Learning, sample.nowNs, sample.nowNs)
    case Some(b) => if b.phase == Learning then Learn(arithmetic, b, sample) else Refresh(arithmetic, b, sample)
  }

  function IsSpike(arithmetic: Arithmetic, config: TapioConfig, baselineUs: nat, rttUs: nat): bool {
    (config.rttSpikeMultiplier > 0 && rttUs > Reduce(arithmetic, baselineUs * config.rttSpikeMultiplier))
    || (config.rttSpikeAbsUs > 0 && rttUs > config.rttSpikeAbsUs)
  }

  /** Whether a sample calls for an RTT event: only a stable entry is judged,
      after its refresh. */
  function Spikes(arithmetic: Arithmetic, entry: Option<Baseline>, sample: Sample): bool {
    entry.Some? && entry.value.phase == Stable
    && IsSpike(arithmetic, sample.config, Refresh(arithmetic, entry.value, sample).baselineUs, sample.rttUs)
  }

  // ----- the handler over its map -----

  datatype ConnKey = ConnKey(saddr: seq<bv8>, daddr: seq<bv8>, sport: nat, dport: nat, family: nat)

  datatype RttEvent = RttEvent(generation: nat, key: ConnKey, baselineMs: nat, currentMs: nat)

  function CapMs(us: nat): nat { if us / 1000 > 65_535 then 65_535 else us / 1000 }

  function SpikeEvent(key: ConnKey, entry: Option<Baseline>, sample: Sample): RttEvent
    requires entry.Some?
  {
    RttEvent(sample.config.generation, key,
             CapMs(Refresh(Wrapping, entry.value, sample).baselineUs), CapMs(sample.rttUs))
  }

  function Lookup(m: map<ConnKey, Baseline>, key: ConnKey): Option<Baseline> {
    if key in m then Some(m[key]) else None
  }

  /** A call of the handler, or an eviction from the map. */
  datatype Call =
    | Handle(config: TapioConfig, key: ConnKey, established: bool, srttUs: Option<nat>, nowNs: nat,
             room: bool, slot: bool)
    | Evict(key: ConnKey)

  datatype Table = Table(baselineRtt: map<ConnKey, Baseline>, lostEvents: nat, events: seq<RttEvent>)

  function SampleOf(call: Call): Sample
    requires call.Handle?
  {
    Sample(call.config, if call.srttUs.Some? then call.srttUs.value / 8 else 0, call.nowNs)
  }

  /** The handler looks at the RTT: network enabled, connection established, RTT known. */
  predicate Tracked(call: Call)
    requires call.Handle?
  {
    Enabled(call.config, F_NETWORK) && call.established && SampleOf(call).rttUs > 0
  }

  function Serve(t: Table, call: Call): Table {
    match call
    case Evict(key) => t.(baselineRtt := t.baselineRtt - {key})
    case Handle(_, key, _, _, _, room, slot) =>
      if !Tracked(call) then t
      else
        var entry, sample := Lookup(t.baselineRtt, key), SampleOf(call);
        var spikes := Spikes(Wrapping, entry, sample);
        Table(if entry.Some? || room then t.baselineRtt[key := Observe(Wrapping, entry, sample)] else t.baselineRtt,
              t.lostEvents + (if spikes && !slot then 1 else 0),
              t.events + (if spikes && slot then [SpikeEvent(key, entry, sample)] else []))
  }

  class Tracker {
    var baselineRtt: map<ConnKey, Baseline>
    var lostEvents: nat
    var events: seq<RttEvent>

    ghost function View(): Table
      reads this
    {
      Table(baselineRtt, lostEvents, events)
    }

    /** A learning entry takes one more sample. */
    method LearnSample(key: ConnKey, sample: Sample)
      requires key in baselineRtt && baselineRtt[key].phase == Learning
      modifies this`baselineRtt
      ensures baselineRtt == old(baselineRtt)[key := Learn(Wrapping, old(baselineRtt)[key], sample)]
    {
      var b := baselineRtt[key].(lastActivityNs := sample.nowNs);
      if b.sampleCount < 255 {
        b := b.(sampleCount := b.sampleCount + 1);
      }
      b := b.(baselineUs := Mean(Wrapping, b.baselineUs, b.sampleCount, sample.rttUs));
      var learningSamples := sample.config.rttMinBaselineSamples;
      if learningSamples > 255 {
        learningSamples := 255;
      }
      if learningSamples > 0 && b.sampleCount >= learningSamples {
        if b.baselineUs > MAX_BASELINE_US {
          b := b.(sampleCount := 0, baselineUs := 0);
        } else {
          b := b.(phase := Stable);
        }
      }
      baselineRtt := baselineRtt[key := b];
    }

    /** A stable entry is refreshed when stale and then judged. */
    method JudgeSample(key: ConnKey, sample: Sample, slot: bool)
      requires key in baselineRtt && baselineRtt[key].phase == Stable
      modifies this
      ensures var entry := Some(old(baselineRtt)[key]);
              var spikes := Spikes(Wrapping, entry, sample);
              && baselineRtt == old(baselineRtt)[key := Refresh(Wrapping, old(baselineRtt)[key], sample)]
              && events == old(events) + (if spikes && slot then [SpikeEvent(key, entry, sample)] else [])
              && lostEvents == old(lostEvents) + (if spikes && !slot then 1 else 0)
    {
      var b := baselineRtt[key].(lastActivityNs := sample.nowNs);
      if (sample.nowNs - b.lastUpdateNs) % U64 > STALE_THRESHOLD_NS {
        b := b.(baselineUs := (b.baselineUs * 9 % U32 + sample.rttUs) % U32 / 10, lastUpdateNs := sample.nowNs);
      }
      baselineRtt := baselineRtt[key := b];
      var ratio, absUs := sample.config.rttSpikeMultiplier, sample.config.rttSpikeAbsUs;
      if (ratio > 0 && sample.rttUs > b.baselineUs * ratio % U32) || (absUs > 0 && sample.rttUs > absUs) {
        if !slot {
          lostEvents := lostEvents + 1;
        } else {
          events := events + [RttEvent(sample.config.generation, key,
             CapMs(b.baselineUs), CapMs(sample.rttUs))];
        }
      }
    }

    /** The RTT half of the socket-state handler. `srttUs` is none when the kernel
        read failed or the family is neither IPv4 nor IPv6. */
    method TrackRtt(config: TapioConfig, key: ConnKey, established: bool, srttUs: Option<nat>, nowNs: nat,
                    room: bool, slot: bool)
      modifies this
      ensures View() == Serve(old(View()), Handle(config, key, established, srttUs, nowNs, room, slot))
    {
      if !Enabled(config, F_NETWORK) || srttUs == None {
        return;
      }
      var rttUs := srttUs.value / 8;
      if established && rttUs > 0 {
        var sample := Sample(config, rttUs, nowNs);
        if key !in baselineRtt {
          if room {
            baselineRtt := baselineRtt[key := Baseline(rttUs, 1, Learning, nowNs, nowNs)];
          }
        } else if baselineRtt[key].phase == Learning {
          LearnSample(key, sample);
        } else {
          JudgeSample(key, sample, slot);
        }
      }
    }
  }

  // ----- runs of one connection -----

  datatype Event = Sampled(sample: Sample) | Evicted

  function EntryAfter(arithmetic: Arithmetic, history: seq<Event>): Option<Baseline> {
    if |history| == 0 then None
    else match history[|history| - 1]
         case Evicted => None
         case Sampled(sample) =>
           Some(Observe(arithmetic, EntryAfter(arithmetic, history[..|history| - 1]), sample))
  }

  /** The samples the present baseline was learned from: since the entry was
      created or its learning last started over. */
  ghost function Window(history: seq<Event>): seq<nat> {
    if |history| == 0 then []
    else
      var before := history[..|history| - 1];
      match history[|history| - 1]
      case Evicted => []
      case Sampled(sample) =>
        match EntryAfter(Wrapping, before)
        case None => [sample.rttUs]
        case Some(b) =>
          if b.phase == Stable then Window(before)
          else if Learn(Wrapping, b, sample).sampleCount == 0 then []
          else Window(before) + [sample.rttUs]
  }

  /** The baseline at the moment learning last finished. */
  ghost function Learned(history: seq<Event>): nat {
    if |history| == 0 then 0
    else
      var before := history[..|history| - 1];
      match (EntryAfter(Wrapping, before), EntryAfter(Wrapping, history))
      case (Some(b), Some(a)) => if b.phase == Learning && a.phase == Stable then a.baselineUs else Learned(before)
      case _ => 0
  }

  ghost function Sum(s: seq<nat>): nat {
    if |s| == 0 then 0 else Sum(s[..|s| - 1]) + s[|s| - 1]
  }

  ghost predicate Brackets(s: seq<nat>, x: nat) {
    && (exists i :: 0 <= i < |s| && s[i] <= x)
    && (exists i :: 0 <= i < |s| && x <= s[i])
  }

  /** `mean` is a running mean of `s`: between its extremes, and no further below
      the true mean than half a microsecond per sample after the first. */
  ghost predicate RunningMean(s: seq<nat>, mean: nat) {
    if |s| == 0 then mean == 0
    else Brackets(s, mean) && |s| * mean <= Sum(s) && 2 * Sum(s) <= 2 * |s| * mean + |s| * (|s| - 1)
  }

  ghost predicate ConstantSetting(history: seq<Event>, k: nat, rttMax: nat) {
    forall i | 0 <= i < |history| && history[i].Sampled? ::
      && history[i].sample.config.rttMinBaselineSamples == k
      && 0 < history[i].sample.rttUs <= rttMax
  }

  lemma {:induction false} MeanStep(s: seq<nat>, mean: nat, rttUs: nat)
    requires RunningMean(s, mean)
    ensures RunningMean(s + [rttUs], (mean * |s| + rttUs) / (|s| + 1))
  {
    var t := s + [rttUs];
    var next := (mean * |s| + rttUs) / (|s| + 1);
    assert t[..|s|] == s && Sum(t) == Sum(s) + rttUs;
    MeanBetween(mean, |s|, rttUs);
    MeanError(mean, |s|, rttUs, Sum(s));
    assert t[|s|] == rttUs;
    if |s| > 0 {
      var i :| 0 <= i < |s| && s[i] <= mean;
      var j :| 0 <= j < |s| && mean <= s[j];
      assert t[i] == s[i] && t[j] == s[j];
    }
  }

  lemma {:induction false} MulMono(a: int, b: int, d: nat)
    requires a <= b
    ensures a * d <= b * d
  {
  }

  lemma {:induction false} MulNext(a: int, n: nat)
    ensures a * (n + 1) == a * n + a
  {
  }

  lemma {:induction false} QuotientBetween(x: nat, d: nat, lo: nat, hi: nat)
    requires d > 0 && lo * d <= x <= hi * d
    ensures lo <= x / d <= hi
  {
    var q := x / d;
    assert x == q * d + x % d;
    if q < lo { MulMono(q + 1, lo, d); }
    if q > hi { MulMono(hi + 1, q, d); }
  }

  lemma {:induction false} MeanBetween(mean: nat, n: nat, rttUs: nat)
    ensures var next := (mean * n + rttUs) / (n + 1);
            if n == 0 then next == rttUs
            else if mean <= rttUs then mean <= next <= rttUs else rttUs <= next <= mean
  {
    var lo, hi := if mean <= rttUs then mean else rttUs, if mean <= rttUs then rttUs else mean;
    if n > 0 {
      MulMono(lo, mean, n);
      MulMono(mean, hi, n);
      MulNext(lo, n);
      MulNext(hi, n);
      QuotientBetween(mean * n + rttUs, n + 1, lo, hi);
    }
  }

  lemma {:induction false} MeanError(mean: nat, n: nat, rttUs: nat, sum: nat)
    requires n == 0 ==> sum == 0
    requires n * mean <= sum && 2 * sum <= 2 * n * mean + n * (n - 1)
    ensures var next := (mean * n + rttUs) / (n + 1);
            && (n + 1) * next <= sum + rttUs
            && 2 * (sum + rttUs) <= 2 * (n + 1) * next + (n + 1) * n
  {
    var next := (mean * n + rttUs) / (n + 1);
    var r := (mean * n + rttUs) % (n + 1);
    assert mean * n + rttUs == (n + 1) * next + r && r <= n;
    assert (n + 1) * n == n * (n - 1) + 2 * n;
    assert 2 * (n + 1) * next == 2 * ((n + 1) * next);
    assert 2 * n * mean == 2 * (mean * n);
  }

  // ----- learning is exact for one to eight samples -----

  /** Room for eight RTTs in a u32. */
  lemma {:induction false} EightFit(baselineUs: nat, count: nat, rttUs: nat)
    requires baselineUs < RTT_BOUND && rttUs < RTT_BOUND && 1 <= count <= 8
    ensures baselineUs * (count - 1) + rttUs < U32
    ensures Mean(Wrapping, baselineUs, count, rttUs) == Mean(Exact, baselineUs, count, rttUs)
            == (baselineUs * (count - 1) + rttUs) / count
  {
    MulMono(count - 1, 7, baselineUs);
    SmallRemainder(baselineUs * (count - 1));
    SmallRemainder(baselineUs * (count - 1) + rttUs);
  }

  lemma {:induction false} SmallRemainder(x: nat)
    requires x < U32
    ensures x % U32 == x
  {
  }

  ghost predicate LearnerInvariant(history: seq<Event>, k: nat) {
    match EntryAfter(Wrapping, history)
    case None => Window(history) == []
    case Some(b) =>
      if b.phase == Learning then
        && |Window(history)| == b.sampleCount && b.sampleCount < (if k > 1 then k else 2)
        && RunningMean(Window(history), b.baselineUs) && b.baselineUs < RTT_BOUND
      else
        Window(history) != [] && RunningMean(Window(history), Learned(history)) && Learned(history) <= MAX_BASELINE_US
  }

  lemma {:induction false} SettingPrefix(history: seq<Event>, k: nat, rttMax: nat)
    requires |history| > 0 && ConstantSetting(history, k, rttMax)
    ensures ConstantSetting(history[..|history| - 1], k, rttMax)
  {
  }

  /** With a constant setting of one to eight samples, whatever the u32 srtt
      readings, no step of learning wraps, and after every step the stored
      baseline is a running mean of exactly the samples since the entry was
      created or its learning last started over. */
  lemma {:induction false} LearningIsExact(history: seq<Event>, k: nat)
    requires 1 <= k <= 8 && ConstantSetting(history, k, RTT_BOUND - 1)
    ensures LearnerInvariant(history, k)
  {
    if |history| > 0 {
      SettingPrefix(history, k, RTT_BOUND - 1);
      LearningIsExact(history[..|history| - 1], k);
      LearnerStep(history, k);
    }
  }

  /** One exact learning step keeps the running mean of the window. */
  lemma {:induction false} LearnKeepsMean(window: seq<nat>, b: Baseline, sample: Sample, k: nat)
    requires 1 <= k <= 8 && sample.config.rttMinBaselineSamples == k && sample.rttUs < RTT_BOUND
    requires |window| == b.sampleCount && b.sampleCount < (if k > 1 then k else 2)
    requires b.phase == Learning && RunningMean(window, b.baselineUs) && b.baselineUs < RTT_BOUND
    ensures Learn(Wrapping, b, sample) == Learn(Exact, b, sample)
    ensures var r := Learn(Wrapping, b, sample);
            if r.sampleCount == 0 then r.phase == Learning && r.baselineUs == 0
            else && r.sampleCount == b.sampleCount + 1 && RunningMean(window + [sample.rttUs], r.baselineUs)
                 && r.baselineUs < RTT_BOUND
                 && (if r.phase == Learning then r.sampleCount < k else r.baselineUs <= MAX_BASELINE_US)
  {
    var mean := (b.baselineUs * b.sampleCount + sample.rttUs) / (b.sampleCount + 1);
    EightFit(b.baselineUs, b.sampleCount + 1, sample.rttUs);
    LearnShape(Wrapping, b, sample, k, mean);
    LearnShape(Exact, b, sample, k, mean);
    MeanStep(window, b.baselineUs, sample.rttUs);
    MeanBetween(b.baselineUs, b.sampleCount, sample.rttUs);
  }

  /** A learning step once its mean is known. */
  lemma {:induction false} LearnShape(arithmetic: Arithmetic, b: Baseline, sample: Sample, k: nat, mean: nat)
    requires 1 <= k <= 8 && sample.config.rttMinBaselineSamples == k
    requires b.phase == Learning && b.sampleCount < 8
    requires Mean(arithmetic, b.baselineUs, b.sampleCount + 1, sample.rttUs) == mean
    ensures Learn(arithmetic, b, sample)
         == if b.sampleCount + 1 < k then
              b.(baselineUs := mean, sampleCount := b.sampleCount + 1, lastActivityNs := sample.nowNs)
            else if mean > MAX_BASELINE_US then
              b.(baselineUs := 0, sampleCount := 0, lastActivityNs := sample.nowNs)
            else
              b.(baselineUs := mean, sampleCount := b.sampleCount + 1, phase := Stable, lastActivityNs := sample.nowNs)
  {
  }

  lemma {:induction false} LearnerStep(history: seq<Event>, k: nat)
    requires |history| > 0 && 1 <= k <= 8 && ConstantSetting(history, k, RTT_BOUND - 1)
    requires LearnerInvariant(history[..|history| - 1], k)
    ensures LearnerInvariant(history, k)
  {
    var before := history[..|history| - 1];
    if history[|history| - 1].Sampled? {
      var sample := history[|history| - 1].sample;
      match EntryAfter(Wrapping, before)
      case None =>
        MeanStep([], 0, sample.rttUs);
        assert [] + [sample.rttUs] == [sample.rttUs];
      case Some(b) =>
        if b.phase == Learning { LearnKeepsMean(Window(before), b, sample, k); }
    }
  }

  /** What learning exactly buys: the arithmetic the source runs is the exact one. */
  lemma {:induction false} LearningNeverWraps(history: seq<Event>, k: nat, sample: Sample)
    requires 1 <= k <= 8 && ConstantSetting(history + [Sampled(sample)], k, RTT_BOUND - 1)
    ensures match EntryAfter(Wrapping, history)
            case Some(b) => b.phase == Learning ==> Learn(Wrapping, b, sample) == Learn(Exact, b, sample)
            case None => true
  {
    assert (history + [Sampled(sample)])[..|history|] == history;
    SettingPrefix(history + [Sampled(sample)], k, RTT_BOUND - 1);
    LearningIsExact(history, k);
    assert (history + [Sampled(sample)])[|history|] == Sampled(sample);
    match EntryAfter(Wrapping, history)
    case None =>
    case Some(b) => if b.phase == Learning { LearnKeepsMean(Window(history), b, sample, k); }
  }

  // ----- nine samples can wrap -----

  /** `n` equal samples in a row. */
  ghost function Repeated(sample: Sample, n: nat): (history: seq<Event>)
    ensures |history| == n && forall i | 0 <= i < n :: history[i] == Sampled(sample)
  {
    if n == 0 then [] else Repeated(sample, n - 1) + [Sampled(sample)]
  }

  lemma {:induction false} LearningConstant(sample: Sample, n: nat)
    requires LearningSamples(sample.config) == 0 || 9 <= LearningSamples(sample.config)
    requires 1 <= n <= 8 && sample.rttUs == RTT_BOUND - 1
    ensures EntryAfter(Wrapping, Repeated(sample, n))
         == Some(Baseline(RTT_BOUND - 1, n, Learning, sample.nowNs, sample.nowNs))
  {
    assert Repeated(sample, n)[..n - 1] == Repeated(sample, n - 1);
    if n > 1 {
      LearningConstant(sample, n - 1);
      ConstantMean(n);
    } else {
      assert EntryAfter(Wrapping, Repeated(sample, 0)) == None;
    }
  }

  lemma {:induction false} ConstantMean(n: nat)
    requires 1 <= n <= 8
    ensures Mean(Wrapping, RTT_BOUND - 1, n, RTT_BOUND - 1) == RTT_BOUND - 1
  {
    EightFit(RTT_BOUND - 1, n, RTT_BOUND - 1);
    MeanBetween(RTT_BOUND - 1, n - 1, RTT_BOUND - 1);
  }

  /** Learning is exact on every run exactly when the setting is one to eight:
      setting 0 never finishes, so it wraps like nine and more. */
  lemma {:induction false} LearningExactIff(k: nat, config: TapioConfig)
    requires config.rttMinBaselineSamples == k
    ensures 1 <= k <= 8 <==>
            forall history: seq<Event>, sample: Sample ::
              ConstantSetting(history + [Sampled(sample)], k, RTT_BOUND - 1) ==> StepIsExact(history, sample)
  {
    if 1 <= k <= 8 {
      forall history: seq<Event>, sample: Sample | ConstantSetting(history + [Sampled(sample)], k, RTT_BOUND - 1)
        ensures StepIsExact(history, sample)
      {
        LearningNeverWraps(history, k, sample);
      }
    } else {
      var slow, quick := Sample(config, RTT_BOUND - 1, 0), Sample(config, 8, 0);
      NinthSampleWraps(slow, quick);
      assert ConstantSetting(Repeated(slow, 8) + [Sampled(quick)], k, RTT_BOUND - 1);
    }
  }

  /** Eight RTTs of the largest size and one of 8 us wrap the sum to zero: the
      source takes an entry the exact mean would discard or keep far higher for
      one with a baseline of zero. */
  lemma {:induction false} NinthSampleWraps(slow: Sample, quick: Sample)
    requires slow.config == quick.config
    requires LearningSamples(slow.config) == 0 || 9 <= LearningSamples(slow.config)
    requires slow.rttUs == RTT_BOUND - 1 && quick.rttUs == 8
    ensures !StepIsExact(Repeated(slow, 8), quick)
  {
    LearningConstant(slow, 8);
    NineDoNotFit();
    var b := Baseline(RTT_BOUND - 1, 8, Learning, slow.nowNs, slow.nowNs);
    assert Learn(Wrapping, b, quick).baselineUs == 0 && Learn(Wrapping, b, quick).sampleCount == 9;
    assert Learn(Exact, b, quick).baselineUs > 0 || Learn(Exact, b, quick).sampleCount == 0;
  }

  lemma {:induction false} NineDoNotFit()
    ensures Mean(Exact, RTT_BOUND - 1, 9, 8) == 477218588
    ensures Mean(Wrapping, RTT_BOUND - 1, 9, 8) == 0
  {
    assert (RTT_BOUND - 1) * 8 == 4294967288;
  }

  ghost predicate StepIsExact(history: seq<Event>, sample: Sample) {
    match EntryAfter(Wrapping, history)
    case None => true
    case Some(b) => b.phase == Learning ==> Learn(Wrapping, b, sample) == Learn(Exact, b, sample)
  }

  // ----- the spike test -----

  lemma {:induction false} BaselineStaysSmall(history: seq<Event>, k: nat)
    requires 1 <= k <= 8 && ConstantSetting(history, k, EXACT_RTT_MAX)
    ensures EntryAfter(Wrapping, history) == EntryAfter(Exact, history)
    ensures EntryAfter(Wrapping, history).Some? ==> EntryAfter(Wrapping, history).value.baselineUs <= EXACT_RTT_MAX
  {
    if |history| > 0 {
      var before := history[..|history| - 1];
      SettingPrefix(history, k, EXACT_RTT_MAX);
      BaselineStaysSmall(before, k);
      LearningIsExact(before, k);
      if history[|history| - 1].Sampled? && EntryAfter(Wrapping, before).Some? {
        StepStaysSmall(before, history[|history| - 1].sample, k, EntryAfter(Wrapping, before).value);
      }
    }
  }

  lemma {:induction false} StepStaysSmall(before: seq<Event>, sample: Sample, k: nat, b: Baseline)
    requires 1 <= k <= 8 && LearnerInvariant(before, k) && EntryAfter(Wrapping, before) == Some(b)
    requires sample.config.rttMinBaselineSamples == k && sample.rttUs <= EXACT_RTT_MAX && b.baselineUs <= EXACT_RTT_MAX
    ensures Observe(Wrapping, Some(b), sample) == Observe(Exact, Some(b), sample)
    ensures Observe(Wrapping, Some(b), sample).baselineUs <= EXACT_RTT_MAX
  {
    if b.phase == Learning {
      LearnKeepsMean(Window(before), b, sample, k);
      LearnStaysSmall(b, sample);
    } else {
      RefreshStaysSmall(b, sample);
    }
  }

  lemma {:induction false} LearnStaysSmall(b: Baseline, sample: Sample)
    requires b.phase == Learning && b.sampleCount < 8
    requires sample.rttUs <= EXACT_RTT_MAX && b.baselineUs <= EXACT_RTT_MAX
    ensures Learn(Exact, b, sample).baselineUs <= EXACT_RTT_MAX
  {
    MeanBetween(b.baselineUs, b.sampleCount, sample.rttUs);
  }

  lemma {:induction false} RefreshStaysSmall(b: Baseline, sample: Sample)
    requires sample.rttUs <= EXACT_RTT_MAX && b.baselineUs <= EXACT_RTT_MAX
    ensures Refresh(Wrapping, b, sample) == Refresh(Exact, b, sample)
    ensures Refresh(Exact, b, sample).baselineUs <= EXACT_RTT_MAX
  {
    SmallRemainder(b.baselineUs * 9);
    SmallRemainder(b.baselineUs * 9 + sample.rttUs);
  }

  /** With RTTs up to 42,949,672 us and a multiplier up to 100 at the moment of
      judgement, an RTT event is called for exactly when the entry finished
      learning with a baseline of at most 100,000 us and the spike test holds in
      exact arithmetic. */
  lemma {:induction false} SpikesExactly(history: seq<Event>, sample: Sample, k: nat)
    requires 1 <= k <= 8 && ConstantSetting(history + [Sampled(sample)], k, EXACT_RTT_MAX)
    requires sample.config.rttSpikeMultiplier <= 100
    ensures Spikes(Wrapping, EntryAfter(Wrapping, history), sample)
       <==> Spikes(Exact, EntryAfter(Exact, history), sample)
    ensures Spikes(Wrapping, EntryAfter(Wrapping, history), sample) ==>
              EntryAfter(Wrapping, history).value.phase == Stable
              && Window(history) != [] && RunningMean(Window(history), Learned(history))
              && Learned(history) <= MAX_BASELINE_US
  {
    var all := history + [Sampled(sample)];
    assert all[..|history|] == history && all[|history|] == Sampled(sample);
    SettingPrefix(all, k, EXACT_RTT_MAX);
    BaselineStaysSmall(history, k);
    LearningIsExact(history, k);
    match EntryAfter(Wrapping, history)
    case None =>
    case Some(b) =>
      RefreshStaysSmall(b, sample);
      RatioFits(Refresh(Exact, b, sample).baselineUs, sample.config.rttSpikeMultiplier);
  }

  lemma {:induction false} RatioFits(baselineUs: nat, ratio: nat)
    requires baselineUs <= EXACT_RTT_MAX && ratio <= 100
    ensures baselineUs * ratio % U32 == baselineUs * ratio
  {
    MulMono(ratio, 100, baselineUs);
    SmallRemainder(baselineUs * ratio);
  }

  /** For one baseline and multiplier, the wrapped ratio test agrees with the
      exact one on every possible RTT exactly when the product fits u32 or wraps
      to something no RTT exceeds. */
  lemma {:induction false} RatioTestExactIff(baselineUs: nat, ratio: nat)
    ensures (forall rttUs: nat | rttUs < RTT_BOUND ::
               RatioExceeded(Wrapping, baselineUs, ratio, rttUs) == RatioExceeded(Exact, baselineUs, ratio, rttUs))
       <==> baselineUs * ratio < U32 || baselineUs * ratio % U32 >= RTT_BOUND - 1
  {
    var product := baselineUs * ratio;
    if product < U32 {
      SmallRemainder(product);
    } else if product % U32 < RTT_BOUND - 1 {
      assert RatioExceeded(Wrapping, baselineUs, ratio, RTT_BOUND - 1);
      assert !RatioExceeded(Exact, baselineUs, ratio, RTT_BOUND - 1);
    }
  }

  predicate RatioExceeded(arithmetic: Arithmetic, baselineUs: nat, ratio: nat, rttUs: nat) {
    rttUs > Reduce(arithmetic, baselineUs * ratio)
  }

  // ----- runs over the whole map -----

  function ServeAll(calls: seq<Call>): Table {
    if |calls| == 0 then Table(map[], 0, []) else Serve(ServeAll(calls[..|calls| - 1]), calls[|calls| - 1])
  }

  /** What one call means for one connection. */
  function HistoryStep(t: Table, call: Call, key: ConnKey): seq<Event> {
    match call
    case Evict(k) => if k == key then [Evicted] else []
    case Handle(_, k, _, _, _, room, _) =>
      if k == key && Tracked(call) && (key in t.baselineRtt || room) then [Sampled(SampleOf(call))] else []
  }

  /** One connection's share of a run of calls. */
  function History(calls: seq<Call>, key: ConnKey): seq<Event> {
    if |calls| == 0 then []
    else
      var before := calls[..|calls| - 1];
      History(before, key) + HistoryStep(ServeAll(before), calls[|calls| - 1], key)
  }

  lemma {:induction false} HistorySnoc(history: seq<Event>, event: Event)
    ensures EntryAfter(Wrapping, history + [event]) == match event
              case Evicted => None
              case Sampled(sample) => Some(Observe(Wrapping, EntryAfter(Wrapping, history), sample))
  {
    assert (history + [event])[..|history|] == history;
  }

  /** A run of calls over many connections is, entry by entry, the run of each
      connection's own history. */
  lemma {:induction false} TableIsHistories(calls: seq<Call>, key: ConnKey)
    ensures Lookup(ServeAll(calls).baselineRtt, key) == EntryAfter(Wrapping, History(calls, key))
  {
    if |calls| > 0 {
      var before, call := calls[..|calls| - 1], calls[|calls| - 1];
      TableIsHistories(before, key);
      var step := HistoryStep(ServeAll(before), call, key);
      if step == [] {
        assert History(before, key) + [] == History(before, key);
      } else {
        HistorySnoc(History(before, key), step[0]);
      }
    }
  }

  /** Every call of the run, and `k` samples a baseline. */
  ghost predicate CallsWithin(calls: seq<Call>, k: nat, rttMax: nat) {
    forall i | 0 <= i < |calls| && calls[i].Handle? && Tracked(calls[i]) ::
      calls[i].config.rttMinBaselineSamples == k && SampleOf(calls[i]).rttUs <= rttMax
  }

  lemma {:induction false} HistoryWithin(calls: seq<Call>, key: ConnKey, k: nat, rttMax: nat)
    requires CallsWithin(calls, k, rttMax)
    ensures ConstantSetting(History(calls, key), k, rttMax)
  {
    if |calls| > 0 { HistoryWithin(calls[..|calls| - 1], key, k, rttMax); }
  }

  /** The kernel's whole verdict: over any run of calls for any connections, with a
      setting of one to eight samples and RTTs up to 42,949,672 us, the next
      tracked sample with a multiplier up to 100 emits its event exactly when the
      exact spike test holds and a ring slot is free, and otherwise counts a lost
      event exactly when the test holds. */
  lemma {:induction false} EventsExactly(calls: seq<Call>, call: Call, k: nat)
    requires 1 <= k <= 8 && CallsWithin(calls, k, EXACT_RTT_MAX)
    requires call.Handle? && Tracked(call) && CallsWithin([call], k, EXACT_RTT_MAX)
    requires call.config.rttSpikeMultiplier <= 100
    ensures var before, after := ServeAll(calls), ServeAll(calls + [call]);
            var entry := EntryAfter(Exact, History(calls, call.key));
            var spikes := Spikes(Exact, entry, SampleOf(call));
            && after.events == before.events
               + (if spikes && call.slot then [SpikeEvent(call.key, entry, SampleOf(call))] else [])
            && after.lostEvents == before.lostEvents + (if spikes && !call.slot then 1 else 0)
            && (spikes ==> entry.value.phase == Stable && Learned(History(calls, call.key)) <= MAX_BASELINE_US)
  {
    var history, sample := History(calls, call.key), SampleOf(call);
    assert (calls + [call])[..|calls|] == calls;
    TableIsHistories(calls, call.key);
    HistoryWithin(calls, call.key, k, EXACT_RTT_MAX);
    assert [call][0] == call;
    SettingSnoc(history, sample, k, EXACT_RTT_MAX);
    SpikesExactly(history, sample, k);
    BaselineStaysSmall(history, k);
  }

  lemma {:induction false} SettingSnoc(history: seq<Event>, sample: Sample, k: nat, rttMax: nat)
    requires ConstantSetting(history, k, rttMax)
    requires sample.config.rttMinBaselineSamples == k && 0 < sample.rttUs <= rttMax
    ensures ConstantSetting(history + [Sampled(sample)], k, rttMax)
  {
  }
}
