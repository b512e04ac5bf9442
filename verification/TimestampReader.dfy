/** What the timestamp reader makes of every text, printed here or elsewhere. */
module TimestampReader {
  import opened Calendar
  import opened Decimal
  import opened MachineInt
  import opened Timestamp

  lemma {:induction false} PowAdd(a: nat, b: nat)
    ensures Pow10(a) * Pow10(b) == Pow10(a + b)
  {
    if a > 0 {
      PowAdd(a - 1, b);
      assert Pow10(a) * Pow10(b) == 10 * (Pow10(a - 1) * Pow10(b));
    }
  }

  /** A fraction is worth its digits as a decimal fraction of a second; digits after
      the ninth and anything after the digits do not count. */
  lemma {:induction false} FractionMeans(digits: string, rest: string)
    requires AllDigits(digits) && |digits| <= 9
    requires |digits| == 9 || rest == "" || !IsDigit(rest[0])
    ensures FractionNanos(digits + rest) * Pow10(|digits|) == DigitsValue(digits) * NANOS_PER_SECOND
    ensures FractionNanos(digits + rest) < NANOS_PER_SECOND
  {
    FractionIs(digits, rest);
    DigitsValueBound(digits);
    ScaledBack(DigitsValue(digits), |digits|);
  }

  lemma {:induction false} FractionIs(digits: string, rest: string)
    requires AllDigits(digits) && |digits| <= 9
    requires |digits| == 9 || rest == "" || !IsDigit(rest[0])
    ensures FractionNanos(digits + rest) == DigitsValue(digits) * Pow10(9 - |digits|)
  {
    assert (digits + rest)[..|digits|] == digits;
    LeadingDigitsUnique(digits + rest, 9, |digits|);
  }

  lemma {:induction false} ScaledBack(value: nat, n: nat)
    requires n <= 9 && value < Pow10(n)
    ensures value * Pow10(9 - n) < NANOS_PER_SECOND
    ensures (value * Pow10(9 - n)) * Pow10(n) == value * NANOS_PER_SECOND
  {
    Powers();
    PowAdd(9 - n, n);
    Regroup3(value, Pow10(9 - n), Pow10(n));
    ScaleBound(value, n, 9 - n);
  }

  lemma Regroup3(a: int, b: int, c: int)
    ensures (a * b) * c == a * (b * c)
  {
  }

  function Clamped(n: nat): nat { if n > U64_MAX then U64_MAX else n }

  /** The chain of saturating operations saturates once. */
  lemma SaturationClamps(days: nat, secondsOfDay: nat, fraction: nat)
    ensures SatAdd(SatMul(SatAdd(SatMul(days, 86_400), secondsOfDay), NANOS_PER_SECOND), fraction)
         == Clamped((days * 86_400 + secondsOfDay) * NANOS_PER_SECOND + fraction)
  {
  }

  /** A text cut at its separators: three fields and whatever else the date has after
      a third hyphen, three fields and whatever else the clock has after a third colon,
      whatever starts at the first point, and the designator. */
  datatype Cut = Cut(
    year: string, month: string, day: string, dateRest: string,
    hour: string, minute: string, second: string, clockRest: string, point: string, suffix: string)

  function DateHalf(t: Cut): string { Join3(t.year, t.month, t.day, "-") + t.dateRest }

  function ClockOf(t: Cut): string { Join3(t.hour, t.minute, t.second, ":") + t.clockRest }

  function Whole(t: Cut): string { DateHalf(t) + (['T'] + ((ClockOf(t) + t.point) + t.suffix)) }

  predicate WellCut(t: Cut) {
    && '-' !in t.year && '-' !in t.month && '-' !in t.day && (t.dateRest == "" || t.dateRest[0] == '-')
    && 'T' !in t.year && 'T' !in t.month && 'T' !in t.day && 'T' !in t.dateRest
    && ':' !in t.hour && ':' !in t.minute && ':' !in t.second && (t.clockRest == "" || t.clockRest[0] == ':')
    && '.' !in t.hour && '.' !in t.minute && '.' !in t.second && '.' !in t.clockRest
    && (t.point == "" || t.point[0] == '.')
    && (t.suffix == "Z" || t.suffix == "+00:00"
        || (t.suffix == "" && !HasSuffix(ClockOf(t) + t.point, "Z") && !HasSuffix(ClockOf(t) + t.point, "+00:00")))
  }

  function DateOf(t: Cut): Option<Date> {
    match (ParseI64(t.year), ParseI64(t.month), ParseI64(t.day))
    case (Some(year), Some(month), Some(day)) => Some(Date(year, month, day))
    case _ => None
  }

  function TimeOf(t: Cut): Option<(nat, nat, nat)> {
    match (ParseUnsigned(t.hour, U64_MAX), ParseUnsigned(t.minute, U64_MAX), ParseUnsigned(t.second, U64_MAX))
    case (Some(hour), Some(minute), Some(second)) => Some((hour, minute, second))
    case _ => None
  }

  /** The instant of a date and a clock, clamped; a day before 1970 counts as 0. */
  function Moment(date: Date, hour: nat, minute: nat, second: nat, nanos: nat): nat {
    if DaysFromCivil(date) < 0 then 0
    else Clamped((DaysFromCivil(date) * 86_400 + (hour * 3_600 + minute * 60 + second) % 0x1_0000_0000_0000_0000)
                 * 1_000_000_000 + nanos)
  }

  /** What a cut text is worth: the six fields must be numbers, and what else the date or
      the clock has is ignored. */
  function Worth(t: Cut): nat {
    if DateOf(t) == None || TimeOf(t) == None then 0
    else
      var (hour, minute, second) := TimeOf(t).value;
      Moment(DateOf(t).value, hour, minute, second, FractionNanos(if t.point == "" then "" else t.point[1..]))
  }

  lemma {:induction false} SplitWithRest(a: string, b: string, d: string, rest: string, c: char)
    requires c !in a && c !in b && c !in d && (rest == "" || rest[0] == c)
    ensures var parts := Split(Join3(a, b, d, [c]) + rest, c);
            |parts| >= 3 && parts[0] == a && parts[1] == b && parts[2] == d
  {
    var tail := d + rest;
    SplitOnceAt(a, b + ([c] + tail), c);
    SplitOnceAt(b, tail, c);
    assert Join3(a, b, d, [c]) + rest == a + ([c] + (b + ([c] + tail)));
    if rest == "" {
      assert tail == d;
      SplitOnceNone(d, c);
    } else {
      assert tail == d + ([c] + rest[1..]);
      SplitOnceAt(d, rest[1..], c);
    }
    assert Split(tail, c)[0] == d;
    assert Split(b + ([c] + tail), c) == [b] + Split(tail, c);
  }

  lemma {:induction false} StripsSuffix(body: string, suffix: string)
    requires suffix == "Z" || suffix == "+00:00"
             || (suffix == "" && !HasSuffix(body, "Z") && !HasSuffix(body, "+00:00"))
    ensures StripUtc(body + suffix) == body
  {
    var text := body + suffix;
    assert text[|body|..] == suffix && text[..|body|] == body;
    if suffix == "Z" {
      assert text[|text| - 1] == 'Z';
      if |text| >= 6 { assert text[|text| - 6..][5] == 'Z'; }
    } else if suffix == "" {
      assert text == body;
    }
  }

  lemma {:induction false} SplitsAtFirstPoint(clock: string, point: string)
    requires '.' !in clock && (point == "" || point[0] == '.')
    ensures SplitTime(clock + point) == (clock, if point == "" then "" else point[1..])
  {
    if point == "" {
      assert clock + point == clock;
      SplitOnceNone(clock, '.');
    } else {
      assert point == ['.'] + point[1..];
      SplitOnceAt(clock, point[1..], '.');
    }
  }

  /** The value read from every text with a `T`, two hyphens before it and two colons
      before any point: that of its fields, whatever they are. */
  lemma {:induction false} ReadsEveryText(t: Cut)
    requires WellCut(t)
    ensures TimestampToUnixNanos(Whole(t)) == Worth(t)
  {
    var clock, time := ClockOf(t), (ClockOf(t) + t.point) + t.suffix;
    assert 'T' !in DateHalf(t) && '.' !in clock;
    SplitOnceAt(DateHalf(t), time, 'T');
    SplitWithRest(t.year, t.month, t.day, t.dateRest, '-');
    DateHalfReads(DateHalf(t), t);
    SplitWithRest(t.hour, t.minute, t.second, t.clockRest, ':');
    ClockReads(clock, t);
    StripsSuffix(clock + t.point, t.suffix);
    SplitsAtFirstPoint(clock, t.point);
    HalvesRead(DateHalf(t), time, clock, t, if t.point == "" then "" else t.point[1..]);
  }

  lemma {:induction false} DateHalfReads(date: string, t: Cut)
    requires var parts := Split(date, '-');
             |parts| >= 3 && parts[0] == t.year && parts[1] == t.month && parts[2] == t.day
    ensures ParseDate(date) == DateOf(t)
  {
  }

  lemma {:induction false} ClockReads(clock: string, t: Cut)
    requires var parts := Split(clock, ':');
             |parts| >= 3 && parts[0] == t.hour && parts[1] == t.minute && parts[2] == t.second
    ensures ParseTime(clock) == TimeOf(t)
  {
  }

  lemma {:induction false} InstantIsMoment(date: Date, hour: nat, minute: nat, second: nat, nanos: nat)
    requires DaysFromCivil(date) >= 0
    ensures InstantNanos(DaysFromCivil(date), hour, minute, second, nanos) == Moment(date, hour, minute, second, nanos)
  {
    SaturationClamps(DaysFromCivil(date), (hour * 3_600 + minute * 60 + second) % (U64_MAX + 1), nanos);
  }

  lemma {:induction false} HalvesRead(date: string, time: string, clock: string, t: Cut, fraction: string)
    requires SplitOnce(date + (['T'] + time), 'T') == Some((date, time)) && 'T' !in date
    requires ParseDate(date) == DateOf(t) && ParseTime(clock) == TimeOf(t)
    requires fraction == (if t.point == "" then "" else t.point[1..])
    requires SplitTime(StripUtc(time)) == (clock, fraction)
    ensures TimestampToUnixNanos(date + (['T'] + time)) == Worth(t)
  {
    if DateOf(t).Some? && TimeOf(t).Some? && DaysFromCivil(DateOf(t).value) >= 0 {
      var (hour, minute, second) := TimeOf(t).value;
      PartsRead(date, time, DateOf(t).value, clock, fraction, hour, minute, second);
      InstantIsMoment(DateOf(t).value, hour, minute, second, FractionNanos(fraction));
    }
  }

  function Occurrences(s: string, c: char): nat {
    if s == "" then 0 else (if s[0] == c then 1 else 0) + Occurrences(s[1..], c)
  }

  lemma {:induction false} SplitOnceCounts(s: string, c: char)
    ensures match SplitOnce(s, c)
            case None => Occurrences(s, c) == 0
            case Some(halves) => Occurrences(s, c) == 1 + Occurrences(halves.1, c)
  {
    if s != "" && s[0] != c { SplitOnceCounts(s[1..], c); }
  }

  lemma {:induction false} SplitCounts(s: string, c: char)
    ensures |Split(s, c)| == Occurrences(s, c) + 1
    decreases |s|
  {
    SplitOnceCounts(s, c);
    match SplitOnce(s, c)
    case None =>
    case Some(halves) => SplitCounts(halves.1, c);
  }

  /** Every other text is read as 0: one without a `T`, one with fewer than two hyphens
      before it, one with fewer than two colons before any point. */
  lemma {:induction false} UnreadableIsZero(date: string, time: string, clock: string, rest: string)
    requires 'T' !in date && '.' !in clock && (rest == "" || rest[0] == '.') && StripUtc(time) == clock + rest
    requires Occurrences(date, '-') < 2 || Occurrences(clock, ':') < 2
    ensures TimestampToUnixNanos(date) == 0 && TimestampToUnixNanos(date + (['T'] + time)) == 0
  {
    SplitOnceNone(date, 'T');
    SplitOnceAt(date, time, 'T');
    SplitCounts(date, '-');
    SplitCounts(clock, ':');
    SplitsAtFirstPoint(clock, rest);
  }
}
