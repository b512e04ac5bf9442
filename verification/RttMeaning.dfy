/** What the network handler does with each sample, without its formulas: what a stored
    baseline becomes, and when an event is emitted and what it says. */
module RttMeaning {
  import opened Decimal
  import opened KernelConfig
  import opened MachineInt
  import opened RttBaseline

  /** `q` is the whole part of `x / d`. */
  predicate IsQuotient(q: nat, x: nat, d: nat) { d * q <= x < d * q + d }

  /** A judged entry: after more than an hour the baseline moves to nine parts of the
      old one and one part of the sample; otherwise it stays. */
  predicate RefreshMeans(b: Baseline, sample: Sample, a: Baseline) {
    && a.phase == Stable && a.sampleCount == b.sampleCount && a.lastActivityNs == sample.nowNs
    && (if (sample.nowNs - b.lastUpdateNs) % U64 > 3_600_000_000_000 then
          a.lastUpdateNs == sample.nowNs && IsQuotient(a.baselineUs, 9 * b.baselineUs + sample.rttUs, 10)
        else a.lastUpdateNs == b.lastUpdateNs && a.baselineUs == b.baselineUs)
  }

  /** A learning entry with `n` samples: the mean `m` of `n` parts old and one part new;
      learning goes on below the setting, ends at it with a mean up to 100 ms, and
      starts over with a larger one. */
  predicate LearnMeans(b: Baseline, sample: Sample, k: nat, a: Baseline, m: nat) {
    var n := b.sampleCount + 1;
    && IsQuotient(m, b.baselineUs * b.sampleCount + sample.rttUs, n)
    && a.lastUpdateNs == b.lastUpdateNs && a.lastActivityNs == sample.nowNs
    && (if n < k then a.phase == Learning && a.sampleCount == n && a.baselineUs == m
        else if m > 100_000 then a.phase == Learning && a.sampleCount == 0 && a.baselineUs == 0
        else a.phase == Stable && a.sampleCount == n && a.baselineUs == m)
  }

  ghost predicate SampleMeans(entry: Option<Baseline>, sample: Sample, k: nat, a: Baseline) {
    match entry
    case None => a == Baseline(sample.rttUs, 1, Learning, sample.nowNs, sample.nowNs)
    case Some(b) =>
      if b.phase == Learning then exists m: nat :: LearnMeans(b, sample, k, a, m) else RefreshMeans(b, sample, a)
  }

  lemma {:induction false} DivIsQuotient(x: nat, d: nat)
    requires d > 0
    ensures IsQuotient(x / d, x, d)
  {
    assert x == d * (x / d) + x % d;
  }

  lemma {:induction false} RefreshWeighs(b: Baseline, sample: Sample)
    requires b.phase == Stable && sample.rttUs <= EXACT_RTT_MAX && b.baselineUs <= EXACT_RTT_MAX
    ensures RefreshMeans(b, sample, Refresh(Wrapping, b, sample))
  {
    SmallRemainder(b.baselineUs * 9);
    SmallRemainder(b.baselineUs * 9 + sample.rttUs);
    DivIsQuotient(b.baselineUs * 9 + sample.rttUs, 10);
  }

  lemma {:induction false} LearnWeighs(b: Baseline, sample: Sample, k: nat)
    requires 1 <= k <= 8 && sample.config.rttMinBaselineSamples == k && sample.rttUs < RTT_BOUND
    requires b.phase == Learning && b.sampleCount < 8 && b.baselineUs < RTT_BOUND
    ensures exists m: nat :: LearnMeans(b, sample, k, Learn(Wrapping, b, sample), m)
  {
    var n := b.sampleCount + 1;
    var m := (b.baselineUs * b.sampleCount + sample.rttUs) / n;
    EightFit(b.baselineUs, n, sample.rttUs);
    LearnShape(Wrapping, b, sample, k, m);
    DivIsQuotient(b.baselineUs * b.sampleCount + sample.rttUs, n);
    assert LearnMeans(b, sample, k, Learn(Wrapping, b, sample), m);
  }

  /** Any sample of any connection, on any run with a setting of one to eight and RTTs
      up to 42,949,672 us: what the entry becomes, without the handler's formulas. */
  lemma {:induction false} EverySampleMeans(history: seq<Event>, sample: Sample, k: nat)
    requires 1 <= k <= 8 && ConstantSetting(history + [Sampled(sample)], k, EXACT_RTT_MAX)
    ensures var after := EntryAfter(Wrapping, history + [Sampled(sample)]);
            after.Some? && SampleMeans(EntryAfter(Wrapping, history), sample, k, after.value)
  {
    var all := history + [Sampled(sample)];
    assert all[..|history|] == history && all[|history|] == Sampled(sample);
    SettingPrefix(all, k, EXACT_RTT_MAX);
    BaselineStaysSmall(history, k);
    LearningIsExact(history, k);
    HistorySnoc(history, Sampled(sample));
    match EntryAfter(Wrapping, history)
    case None =>
    case Some(b) => if b.phase == Learning { LearnWeighs(b, sample, k); } else { RefreshWeighs(b, sample); }
  }

  /** A refreshed baseline lies between the old one and the sample, and moves a tenth
      of the way, up to rounding down. */
  lemma {:induction false} RefreshMovesATenth(was: nat, rttUs: nat, n: nat)
    requires IsQuotient(n, 9 * was + rttUs, 10)
    ensures if was <= rttUs then was <= n <= rttUs && 10 * (n - was) <= rttUs - was < 10 * (n - was) + 10
            else rttUs <= n <= was && was - rttUs <= 10 * (was - n) < was - rttUs + 10
  {
  }

  /** What one event says of a judged entry. */
  predicate EventSays(event: RttEvent, call: Call, a: Baseline)
    requires call.Handle?
  {
    var currentUs := SampleOf(call).rttUs;
    && event.generation == call.config.generation && event.key == call.key
    && event.baselineMs == (if a.baselineUs >= 65_536_000 then 65_535 else a.baselineUs / 1_000)
    && event.currentMs == (if currentUs >= 65_536_000 then 65_535 else currentUs / 1_000)
  }

  /** The whole handler, on any run of calls for any connections within those bounds:
      a call that is not tracked, or finds no memory for a new entry, changes nothing;
      any other gives its connection's entry what the sample means and leaves the other
      entries alone; and an event is emitted, or without a slot lost, exactly when the
      entry was stable and the RTT exceeds the multiplier times the baseline it has
      now, or the absolute limit, a limit of zero being off. */
  lemma {:induction false} EveryCallMeans(calls: seq<Call>, call: Call, k: nat)
    requires 1 <= k <= 8 && CallsWithin(calls, k, EXACT_RTT_MAX)
    requires call.Handle? && CallsWithin([call], k, EXACT_RTT_MAX) && call.config.rttSpikeMultiplier <= 100
    ensures CallMeans(ServeAll(calls), call, k, ServeAll(calls + [call]))
  {
    assert (calls + [call])[..|calls|] == calls && [call][0] == call;
    if Tracked(call) {
      TrackedCallMeans(calls, call, k);
    }
  }

  ghost predicate CallMeans(before: Table, call: Call, k: nat, after: Table)
    requires call.Handle?
  {
    var entry, sample, c := Lookup(before.baselineRtt, call.key), SampleOf(call), call.config;
    if !Tracked(call) || (entry == None && !call.room) then after == before
    else
      && call.key in after.baselineRtt
      && (var a := after.baselineRtt[call.key];
          var spikes := entry.Some? && entry.value.phase == Stable
                        && ((c.rttSpikeMultiplier > 0 && sample.rttUs > a.baselineUs * c.rttSpikeMultiplier)
                            || (c.rttSpikeAbsUs > 0 && sample.rttUs > c.rttSpikeAbsUs));
          && after.baselineRtt == before.baselineRtt[call.key := a]
          && SampleMeans(entry, sample, k, a)
          && after.lostEvents == before.lostEvents + (if spikes && !call.slot then 1 else 0)
          && |after.events| == |before.events| + (if spikes && call.slot then 1 else 0)
          && before.events <= after.events
          && (spikes && call.slot ==> EventSays(after.events[|before.events|], call, a)))
  }

  lemma {:induction false} TrackedCallMeans(calls: seq<Call>, call: Call, k: nat)
    requires 1 <= k <= 8 && CallsWithin(calls, k, EXACT_RTT_MAX)
    requires call.Handle? && Tracked(call) && CallsWithin([call], k, EXACT_RTT_MAX)
    requires call.config.rttSpikeMultiplier <= 100
    ensures CallMeans(ServeAll(calls), call, k, Serve(ServeAll(calls), call))
  {
    var history, sample := History(calls, call.key), SampleOf(call);
    assert [call][0] == call;
    TableIsHistories(calls, call.key);
    HistoryWithin(calls, call.key, k, EXACT_RTT_MAX);
    SettingSnoc(history, sample, k, EXACT_RTT_MAX);
    EverySampleMeans(history, sample, k);
    HistorySnoc(history, Sampled(sample));
    BaselineStaysSmall(history, k);
    JudgedCallMeans(ServeAll(calls), call, k);
  }

  lemma {:induction false} JudgedCallMeans(t: Table, call: Call, k: nat)
    requires call.Handle? && Tracked(call) && call.config.rttSpikeMultiplier <= 100
    requires var entry := Lookup(t.baselineRtt, call.key);
             && SampleMeans(entry, SampleOf(call), k, Observe(Wrapping, entry, SampleOf(call)))
             && (entry.Some? ==> entry.value.baselineUs <= EXACT_RTT_MAX) && SampleOf(call).rttUs <= EXACT_RTT_MAX
    ensures CallMeans(t, call, k, Serve(t, call))
  {
    var entry, sample := Lookup(t.baselineRtt, call.key), SampleOf(call);
    if entry.Some? && entry.value.phase == Stable {
      RefreshStaysSmall(entry.value, sample);
      RatioFits(Refresh(Exact, entry.value, sample).baselineUs, call.config.rttSpikeMultiplier);
    }
  }

  /** Whatever the settings, the RTT and the table, a handled call emits at most one
      event, and one it emits tells of the call and of the entry stored with it. */
  lemma {:induction false} EveryEventSays(t: Table, call: Call)
    requires call.Handle?
    ensures var after := Serve(t, call);
            && t.events <= after.events && |after.events| <= |t.events| + 1
            && (|after.events| > |t.events| ==>
                  && call.slot && call.key in t.baselineRtt && t.baselineRtt[call.key].phase == Stable
                  && call.key in after.baselineRtt
                  && EventSays(after.events[|t.events|], call, after.baselineRtt[call.key]))
  {
  }

  /** A learning step under any setting, in the kernel's u32 arithmetic: the count stops
      at 255, and so does the setting; setting 0 never ends. */
  lemma {:induction false} LearnUnderAnySetting(b: Baseline, sample: Sample)
    requires b.phase == Learning
    ensures var k := sample.config.rttMinBaselineSamples;
            var n := if b.sampleCount >= 255 then b.sampleCount else b.sampleCount + 1;
            var m := (b.baselineUs * (n - 1) % 0x1_0000_0000 + sample.rttUs) % 0x1_0000_0000 / n;
            var a := Learn(Wrapping, b, sample);
            if k > 0 && (n >= k || n >= 255) then
              if m > 100_000 then a.phase == Learning && a.sampleCount == 0 && a.baselineUs == 0
              else a.phase == Stable && a.sampleCount == n && a.baselineUs == m
            else a.phase == Learning && a.sampleCount == n && a.baselineUs == m
  {
  }
}
