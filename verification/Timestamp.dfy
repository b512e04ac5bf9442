/** The RFC 3339 timestamp the observers print and the controller sink reads back. */
module Timestamp {
  import opened Calendar
  import opened Decimal
  import opened MachineInt

  const NANOS_PER_SECOND: int := 1_000_000_000

  // ----- printing -----

  function Join3(a: string, b: string, c: string, sep: string): string {
    a + (sep + (b + (sep + c)))
  }

  function DateText(date: Date): string {
    Join3(PaddedInt(date.year, 4), PaddedInt(date.month, 2), PaddedInt(date.day, 2), "-")
  }

  function ClockText(hour: nat, minute: nat, second: nat): string {
    Join3(Padded(hour, 2), Padded(minute, 2), Padded(second, 2), ":")
  }

  function ClockOfDay(secondsOfDay: nat): string {
    ClockText(secondsOfDay / 3_600, (secondsOfDay % 3_600) / 60, secondsOfDay % 60)
  }

  /** Date and clock of a printed instant: 19 characters. */
  function SecondsText(secs: nat): string {
    DateText(CivilFromDays(secs / 86_400)) + ("T" + ClockOfDay(secs % 86_400))
  }

  function FractionText(subsecNanos: nat): string {
    if subsecNanos == 0 then "" else "." + Padded(subsecNanos, 9)
  }

  /** Everything before the UTC designator. */
  function Stem(nanos: nat): string {
    SecondsText(nanos / NANOS_PER_SECOND) + FractionText(nanos % NANOS_PER_SECOND)
  }

  function UnixNanosToRfc3339(nanos: nat): string { Stem(nanos) + "+00:00" }

  // ----- parsing -----

  /** `str::split_once`: the text around the first `c`. */
  function SplitOnce(s: string, c: char): (r: Option<(string, string)>)
    ensures r.Some? ==> |r.value.1| < |s|
  {
    if s == "" then None
    else if s[0] == c then Some(("", s[1..]))
    else match SplitOnce(s[1..], c)
         case None => None
         case Some((head, tail)) => Some(([s[0]] + head, tail))
  }

  /** All parts of `str::split`. */
  function Split(s: string, c: char): (parts: seq<string>)
    ensures |parts| > 0
    decreases |s|
  {
    match SplitOnce(s, c)
    case None => [s]
    case Some((head, tail)) => [head] + Split(tail, c)
  }

  predicate HasSuffix(s: string, suffix: string) {
    |s| >= |suffix| && s[|s| - |suffix|..] == suffix
  }

  /** The text without a trailing UTC designator, if it has one. */
  function StripUtc(time: string): string {
    if HasSuffix(time, "+00:00") then time[..|time| - 6]
    else if HasSuffix(time, "Z") then time[..|time| - 1]
    else time
  }

  function ParseDate(text: string): Option<Date> {
    var parts := Split(text, '-');
    if |parts| < 3 then None
    else match (ParseI64(parts[0]), ParseI64(parts[1]), ParseI64(parts[2]))
         case (Some(year), Some(month), Some(day)) => Some(Date(year, month, day))
         case _ => None
  }

  function ParseTime(text: string): (r: Option<(nat, nat, nat)>) {
    var parts := Split(text, ':');
    if |parts| < 3 then None
    else match (ParseUnsigned(parts[0], U64_MAX), ParseUnsigned(parts[1], U64_MAX), ParseUnsigned(parts[2], U64_MAX))
         case (Some(hour), Some(minute), Some(second)) => Some((hour, minute, second))
         case _ => None
  }

  /** Number of leading digits, at most `limit`. */
  function LeadingDigits(s: string, limit: nat): (k: nat)
    ensures k <= |s| && k <= limit && AllDigits(s[..k])
    ensures k < limit && k < |s| ==> !IsDigit(s[k])
  {
    if limit == 0 || s == "" || !IsDigit(s[0]) then 0
    else
      var k := LeadingDigits(s[1..], limit - 1);
      assert s[..k + 1] == [s[0]] + s[1..][..k];
      k + 1
  }

  /** What a fraction is worth: its leading digits, nine at most, as a decimal
      fraction of a second. */
  function FractionNanos(fraction: string): nat {
    var k := LeadingDigits(fraction, 9);
    DigitsValue(fraction[..k]) * Pow10(9 - k)
  }

  lemma {:induction false} DigitsValueBound(s: string)
    requires AllDigits(s)
    ensures DigitsValue(s) < Pow10(|s|)
  {
    if |s| > 0 { DigitsValueBound(s[..|s| - 1]); }
  }

  /** One more digit of a fraction stays far below saturation. */
  lemma DigitStep(s: string, i: nat)
    requires i < |s| && i < 9 && AllDigits(s[..i]) && IsDigit(s[i])
    ensures AllDigits(s[..i + 1])
    ensures DigitsValue(s[..i + 1]) == 10 * DigitsValue(s[..i]) + DigitValue(s[i])
    ensures DigitsValue(s[..i + 1]) < 1_000_000_000
  {
    assert s[..i + 1][..i] == s[..i];
    DigitsValueBound(s[..i + 1]);
    PowBound(i + 1);
  }

  lemma PowBound(w: nat)
    requires w <= 9
    ensures Pow10(w) <= 1_000_000_000
    decreases 9 - w
  {
    if w < 9 { PowBound(w + 1); } else { assert Pow10(9) == 1_000_000_000; }
  }

  lemma {:induction false} ScaleBound(base: nat, digits: nat, k: nat)
    requires base < Pow10(digits) && digits + k <= 9
    ensures base * Pow10(k) < Pow10(digits + k) <= 1_000_000_000
  {
    PowBound(digits + k);
    if k == 0 {
      assert Pow10(0) == 1;
    } else {
      ScaleBound(base, digits, k - 1);
      ScaleStep(base, k - 1);
      assert Pow10(digits + k) == 10 * Pow10(digits + (k - 1));
    }
  }

  lemma ScaleStep(base: nat, k: nat)
    ensures base * Pow10(k + 1) == 10 * (base * Pow10(k))
  {
    var p := Pow10(k);
    assert Pow10(k + 1) == 10 * p;
    assert base * (10 * p) == 10 * (base * p);
  }

  /** The source's two loops; neither saturates. */
  method ComputeFractionNanos(fraction: string) returns (value: nat)
    ensures value == FractionNanos(fraction)
  {
    value := 0;
    var digits := 0;
    while digits < 9 && digits < |fraction|
      invariant 0 <= digits <= 9 && digits <= |fraction|
      invariant AllDigits(fraction[..digits]) && value == DigitsValue(fraction[..digits])
    {
      if !IsDigit(fraction[digits]) {
        break;
      }
      DigitStep(fraction, digits);
      value := SatAdd(SatMul(value, 10), DigitValue(fraction[digits]));
      digits := digits + 1;
    }
    LeadingDigitsUnique(fraction, 9, digits);
    value := PadFraction(value, digits, fraction[..digits]);
  }

  /** The second loop: one multiplication by ten per missing digit. */
  method PadFraction(start: nat, digits: nat, ghost text: string) returns (value: nat)
    requires digits <= 9 && |text| == digits && AllDigits(text) && start == DigitsValue(text)
    ensures value == start * Pow10(9 - digits)
  {
    DigitsValueBound(text);
    value := start;
    assert Pow10(0) == 1;
    for j := digits to 9
      invariant value == start * Pow10(j - digits)
    {
      ScaleBound(start, digits, j - digits + 1);
      ScaleStep(start, j - digits);
      value := SatMul(value, 10);
    }
  }

  lemma {:induction false} LeadingDigitsUnique(s: string, limit: nat, k: nat)
    requires k <= |s| && k <= limit && AllDigits(s[..k])
    requires k < limit && k < |s| ==> !IsDigit(s[k])
    ensures LeadingDigits(s, limit) == k
  {
    var l := LeadingDigits(s, limit);
    assert forall i :: 0 <= i < k ==> s[..k][i] == s[i];
    assert forall i :: 0 <= i < l ==> s[..l][i] == s[i];
  }

  /** The clock and the fraction, around the first point. */
  function SplitTime(time: string): (string, string) {
    match SplitOnce(time, '.')
    case None => (time, "")
    case Some(halves) => halves
  }

  function InstantNanos(days: nat, hour: nat, minute: nat, second: nat, fraction: nat): nat {
    var secondsOfDay := (hour * 3_600 + minute * 60 + second) % (U64_MAX + 1);
    SatAdd(SatMul(SatAdd(SatMul(days, 86_400), secondsOfDay), NANOS_PER_SECOND), fraction)
  }

  function TimestampToUnixNanos(timestamp: string): nat {
    match SplitOnce(timestamp, 'T')
    case None => 0
    case Some((dateText, timeText)) =>
      match ParseDate(dateText)
      case None => 0
      case Some(date) =>
        var (clock, fraction) := SplitTime(StripUtc(timeText));
        match ParseTime(clock)
        case None => 0
        case Some((hour, minute, second)) =>
          var days := DaysFromCivil(date);
          if days < 0 then 0
          else InstantNanos(days, hour, minute, second, FractionNanos(fraction))
  }

  // ----- round trip -----

  lemma {:induction false} SplitOnceAt(head: string, tail: string, c: char)
    requires c !in head
    ensures SplitOnce(head + ([c] + tail), c) == Some((head, tail))
  {
    var s := head + ([c] + tail);
    if head == "" {
      assert s == [c] + tail && s[1..] == tail;
    } else {
      SplitOnceAt(head[1..], tail, c);
      assert s[1..] == head[1..] + ([c] + tail);
      assert [head[0]] + head[1..] == head;
    }
  }

  lemma {:induction false} SplitOnceNone(s: string, c: char)
    requires c !in s
    ensures SplitOnce(s, c) == None
  {
    if s != "" { SplitOnceNone(s[1..], c); }
  }

  lemma SplitThree(a: string, b: string, d: string, c: char)
    requires c !in a && c !in b && c !in d
    ensures Split(Join3(a, b, d, [c]), c) == [a, b, d]
  {
    SplitOnceAt(a, b + ([c] + d), c);
    SplitOnceAt(b, d, c);
    SplitOnceNone(d, c);
    assert Split(d, c) == [d];
    assert Split(b + ([c] + d), c) == [b] + [d];
    assert [a] + ([b] + [d]) == [a, b, d];
  }

  /** A number that fits its width is written with exactly that many digits and
      reads back. */
  lemma PaddedReads(n: nat, w: nat)
    requires 0 < w <= 9 && n < Pow10(w)
    ensures |Padded(n, w)| == w && AllDigits(Padded(n, w)) && DigitsValue(Padded(n, w)) == n
    ensures ParseI64(Padded(n, w)) == Some(n) && ParseUnsigned(Padded(n, w), U64_MAX) == Some(n)
    ensures forall c | c in Padded(n, w) :: IsDigit(c)
  {
    PaddedIsFixed(n, w);
    PowBound(w);
    FixedValue(n, w);
    ParseFixed(n, w, I64_MAX);
    ParseFixed(n, w, U64_MAX);
  }

  lemma PaddedOrders(m: nat, n: nat, w: nat)
    requires 0 < w && m < n < Pow10(w)
    ensures TextBefore(Padded(m, w), Padded(n, w))
  {
    PaddedIsFixed(m, w);
    PaddedIsFixed(n, w);
    FixedOrders(m, n, w);
  }

  lemma Powers()
    ensures Pow10(2) == 100 && Pow10(4) == 10_000 && Pow10(9) == 1_000_000_000
  {
  }

  predicate PrintableDate(date: Date) {
    ValidDate(date) && 0 <= date.year <= 9_999
  }

  lemma DateTextReads(date: Date)
    requires PrintableDate(date)
    ensures ParseDate(DateText(date)) == Some(date)
    ensures 'T' !in DateText(date) && |DateText(date)| == 10
  {
    Powers();
    PaddedReads(date.year, 4);
    PaddedReads(date.month, 2);
    PaddedReads(date.day, 2);
    SplitThree(Padded(date.year, 4), Padded(date.month, 2), Padded(date.day, 2), '-');
  }

  lemma ClockTextReads(hour: nat, minute: nat, second: nat)
    requires hour < 100 && minute < 100 && second < 100
    ensures ParseTime(ClockText(hour, minute, second)) == Some((hour, minute, second))
    ensures var text := ClockText(hour, minute, second);
            |text| == 8 && forall c | c in text :: IsDigit(c) || c == ':'
  {
    Powers();
    PaddedReads(hour, 2);
    PaddedReads(minute, 2);
    PaddedReads(second, 2);
    SplitThree(Padded(hour, 2), Padded(minute, 2), Padded(second, 2), ':');
  }

  lemma LastDay()
    ensures DaysFromCivil(Date(9999, 12, 31)) == 2932896
  {
    DaysFromCivilClosed(Date(9999, 12, 31));
    assert YearStart(9999) == 3652059 && MonthStart(9) == 275;
  }

  /** Every u64 nanosecond count falls on a printable date. */
  lemma DatesOfU64(days: nat)
    requires days <= U64_MAX / NANOS_PER_SECOND / 86_400
    ensures PrintableDate(CivilFromDays(days))
  {
    CivilFromDaysInverse(days);
    LastDay();
    Epoch();
    DaysFromCivilInverse(Date(9999, 12, 31));
    if days > 0 { CivilFromDaysOrders(0, days); }
    CivilFromDaysOrders(days, 2932896);
  }

  lemma FractionReads(subsecNanos: nat, rest: string)
    requires subsecNanos < NANOS_PER_SECOND
    ensures FractionNanos(Padded(subsecNanos, 9) + rest) == subsecNanos
  {
    Powers();
    PaddedReads(subsecNanos, 9);
    var digits := Padded(subsecNanos, 9);
    assert (digits + rest)[..9] == digits;
    LeadingDigitsUnique(digits + rest, 9, 9);
    assert Pow10(0) == 1;
  }

  /** Stripping a UTC designator never eats into a digit, a colon or a point. */
  lemma StripKeeps(body: string, suffix: string) returns (rest: string)
    requires forall c | c in body :: IsDigit(c) || c == ':' || c == '.'
    ensures StripUtc(body + suffix) == body + rest
    ensures suffix == "" || suffix == "Z" || suffix == "+00:00" ==> rest == ""
  {
    var text := body + suffix;
    assert text[|body|..] == suffix;
    forall i | 0 <= i < |body| ensures text[i] != '+' && text[i] != 'Z' {
      assert body[i] in body;
    }
    if HasSuffix(text, "+00:00") {
      var at := |text| - 6;
      assert text[at..][0] == '+';
      assert at >= |body|;
      rest := suffix[..|suffix| - 6];
    } else if HasSuffix(text, "Z") {
      var at := |text| - 1;
      assert text[at..][0] == 'Z';
      assert at >= |body|;
      rest := suffix[..|suffix| - 1];
    } else {
      rest := suffix;
    }
  }

  /** The time half reads as clock and fraction whatever designator follows. */
  lemma TimeReads(clock: string, subsecNanos: nat, suffix: string)
    requires forall c | c in clock :: IsDigit(c) || c == ':'
    requires subsecNanos < NANOS_PER_SECOND
    requires subsecNanos == 0 ==> suffix == "" || suffix == "Z" || suffix == "+00:00"
    ensures var parts := SplitTime(StripUtc((clock + FractionText(subsecNanos)) + suffix));
            parts.0 == clock && FractionNanos(parts.1) == subsecNanos
  {
    if subsecNanos == 0 {
      var rest := StripKeeps(clock, suffix);
      assert clock + "" == clock;
      SplitOnceNone(clock, '.');
      NoFraction();
    } else {
      FractionTimeReads(clock, subsecNanos, Padded(subsecNanos, 9), suffix);
    }
  }

  lemma NoFraction()
    ensures FractionNanos("") == 0
  {
    assert DigitsValue("") == 0;
  }

  lemma FractionTimeReads(clock: string, subsecNanos: nat, digits: string, suffix: string)
    requires forall c | c in clock :: IsDigit(c) || c == ':'
    requires 0 < subsecNanos < NANOS_PER_SECOND && digits == Padded(subsecNanos, 9)
    ensures var parts := SplitTime(StripUtc((clock + ("." + digits)) + suffix));
            parts.0 == clock && FractionNanos(parts.1) == subsecNanos
  {
    assert forall c | c in digits :: IsDigit(c) by {
      Powers();
      PaddedReads(subsecNanos, 9);
    }
    var rest := StripKeeps(clock + ("." + digits), suffix);
    SplitsAtPoint(clock, digits, rest);
    FractionReads(subsecNanos, rest);
  }

  lemma SplitsAtPoint(clock: string, digits: string, rest: string)
    requires '.' !in clock
    ensures SplitTime((clock + ("." + digits)) + rest) == (clock, digits + rest)
  {
    assert (clock + ("." + digits)) + rest == clock + (['.'] + (digits + rest));
    SplitOnceAt(clock, digits + rest, '.');
  }

  /** What the reader makes of a text once its parts are known. */
  lemma PartsRead(dateText: string, timeText: string, date: Date, clock: string, fraction: string,
                  hour: nat, minute: nat, second: nat)
    requires 'T' !in dateText && ParseDate(dateText) == Some(date) && DaysFromCivil(date) >= 0
    requires SplitTime(StripUtc(timeText)) == (clock, fraction)
    requires ParseTime(clock) == Some((hour, minute, second))
    ensures TimestampToUnixNanos(dateText + (['T'] + timeText))
         == InstantNanos(DaysFromCivil(date), hour, minute, second, FractionNanos(fraction))
  {
    SplitOnceAt(dateText, timeText, 'T');
  }

  /** The printed instant is read back exactly: with either UTC designator or
      none, and, once there is a fraction, whatever text follows it. */
  lemma StemReads(nanos: nat, suffix: string)
    requires nanos <= U64_MAX
    requires nanos % NANOS_PER_SECOND == 0 ==> suffix == "" || suffix == "Z" || suffix == "+00:00"
    ensures TimestampToUnixNanos(Stem(nanos) + suffix) == nanos
  {
    var secs, sub := nanos / NANOS_PER_SECOND, nanos % NANOS_PER_SECOND;
    var days, sod := secs / 86_400, secs % 86_400;
    assert nanos == secs * NANOS_PER_SECOND + sub;
    assert secs == days * 86_400 + sod;
    SecondsRead(days, sod, sub, suffix);
    StemParts(nanos, suffix);
  }

  /** A numeric UTC offset of RFC 3339. */
  predicate IsOffset(text: string) {
    && |text| == 6 && (text[0] == '+' || text[0] == '-') && text[3] == ':'
    && IsDigit(text[1]) && IsDigit(text[2]) && IsDigit(text[4]) && IsDigit(text[5])
  }

  /** An offset after the seconds makes the clock unreadable. */
  lemma OffsetSpoilsClock(hour: nat, minute: nat, second: nat, offset: string)
    requires hour < 100 && minute < 100 && second < 100 && IsOffset(offset)
    ensures ParseTime(ClockText(hour, minute, second) + offset) == None
  {
    Powers();
    PaddedReads(hour, 2);
    PaddedReads(minute, 2);
    PaddedReads(second, 2);
    SplitFour(Padded(hour, 2), Padded(minute, 2), Padded(second, 2), offset);
    var third := Padded(second, 2) + offset[..3];
    assert third[0] == Padded(second, 2)[0] && third[2] == offset[0];
    assert IsDigit(Padded(second, 2)[0]) && !IsDigit(third[2]);
  }

  lemma SplitFour(a: string, b: string, d: string, offset: string)
    requires ':' !in a && ':' !in b && ':' !in d && IsOffset(offset)
    ensures var parts := Split(Join3(a, b, d, ":") + offset, ':');
            |parts| >= 3 && parts[2] == d + offset[..3]
  {
    var third, last := d + offset[..3], offset[4..];
    assert Join3(a, b, d, ":") + offset == a + ([':'] + (b + ([':'] + (third + ([':'] + last))))) by {
      assert offset == offset[..3] + ([':'] + last);
    }
    SplitOnceAt(a, b + ([':'] + (third + ([':'] + last))), ':');
    SplitOnceAt(b, third + ([':'] + last), ':');
    assert ':' !in third;
    SplitOnceAt(third, last, ':');
    var rest := [':'] + (third + ([':'] + last));
    assert Split(third + ([':'] + last), ':')[0] == third;
    assert Split(b + rest, ':') == [b] + Split(third + ([':'] + last), ':');
    assert Split(b + rest, ':')[1] == third && |Split(b + rest, ':')| >= 2;
    assert Split(a + ([':'] + (b + rest)), ':') == [a] + Split(b + rest, ':');
  }

  lemma ForeignOffsetKept(clock: string, offset: string)
    requires (forall c | c in clock :: IsDigit(c) || c == ':') && IsOffset(offset) && offset != "+00:00"
    ensures SplitTime(StripUtc(clock + offset)) == (clock + offset, "")
  {
    var time := clock + offset;
    assert time[|time| - 6..] == offset;
    assert time[|time| - 1] == offset[5];
    SplitOnceNone(time, '.');
  }

  /** With any numeric offset the reader gives the printed instant, not the one the
      offset means, exactly when there is a fraction or the offset is `+00:00`;
      any other offset after a whole second makes it give 0. */
  lemma OffsetReads(nanos: nat, offset: string)
    requires nanos <= U64_MAX && IsOffset(offset)
    ensures TimestampToUnixNanos(Stem(nanos) + offset)
         == if nanos % NANOS_PER_SECOND != 0 || offset == "+00:00" then nanos else 0
  {
    if nanos % NANOS_PER_SECOND != 0 || offset == "+00:00" {
      StemReads(nanos, offset);
    } else {
      var secs := nanos / NANOS_PER_SECOND;
      StemParts(nanos, offset);
      assert ClockOfDay(secs % 86_400) + "" == ClockOfDay(secs % 86_400);
      DatesOfU64(secs / 86_400);
      WholeSecondFails(CivilFromDays(secs / 86_400), secs % 86_400, offset);
    }
  }

  /** What an offset adds to UTC, in minutes. */
  function OffsetMinutes(offset: string): int
    requires IsOffset(offset)
  {
    var minutes := 600 * DigitValue(offset[1]) + 60 * DigitValue(offset[2]) + 10 * DigitValue(offset[4])
                   + DigitValue(offset[5]);
    if offset[0] == '-' then -minutes else minutes
  }

  /** The instant that a local time with this offset means. */
  function MeantInstant(localNanos: nat, offset: string): int
    requires IsOffset(offset)
  {
    localNanos - OffsetMinutes(offset) * 60 * NANOS_PER_SECOND
  }

  /** The reader gives the meant instant exactly for a zero offset, when it reads the
      offset or ignores it, and otherwise, giving 0, exactly when 0 is meant. */
  lemma OffsetHonouredIff(nanos: nat, offset: string)
    requires nanos <= U64_MAX && IsOffset(offset)
    ensures TimestampToUnixNanos(Stem(nanos) + offset) == MeantInstant(nanos, offset)
       <==> if nanos % NANOS_PER_SECOND != 0 || offset == "+00:00" then OffsetMinutes(offset) == 0
            else nanos == OffsetMinutes(offset) * 60 * NANOS_PER_SECOND
  {
    OffsetReads(nanos, offset);
    if offset == "+00:00" { assert OffsetMinutes(offset) == 0; }
  }

  /** Two hours and a nanosecond past the epoch, at one hour east of UTC, with and
      without the nanosecond: neither is read as the instant it means. */
  lemma OffsetsAreNotHonoured()
    ensures var fractional, whole := 7_200 * NANOS_PER_SECOND + 1, 7_200 * NANOS_PER_SECOND;
            && TimestampToUnixNanos(Stem(fractional) + "+01:00") != MeantInstant(fractional, "+01:00")
            && TimestampToUnixNanos(Stem(whole) + "+01:00") != MeantInstant(whole, "+01:00")
  {
    assert OffsetMinutes("+01:00") == 60;
    OffsetHonouredIff(7_200 * NANOS_PER_SECOND + 1, "+01:00");
    OffsetHonouredIff(7_200 * NANOS_PER_SECOND, "+01:00");
  }

  lemma WholeSecondFails(date: Date, sod: nat, offset: string)
    requires PrintableDate(date) && sod < 86_400 && IsOffset(offset) && offset != "+00:00"
    ensures TimestampToUnixNanos(DateText(date) + (['T'] + (ClockOfDay(sod) + offset))) == 0
  {
    ClockTextReads(sod / 3_600, (sod % 3_600) / 60, sod % 60);
    ForeignOffsetKept(ClockOfDay(sod), offset);
    OffsetSpoilsClock(sod / 3_600, (sod % 3_600) / 60, sod % 60, offset);
    DateTextReads(date);
    SplitOnceAt(DateText(date), ClockOfDay(sod) + offset, 'T');
  }

  lemma StemParts(nanos: nat, suffix: string)
    ensures var secs := nanos / NANOS_PER_SECOND;
            var timeText := (ClockOfDay(secs % 86_400) + FractionText(nanos % NANOS_PER_SECOND)) + suffix;
            Stem(nanos) + suffix == DateText(CivilFromDays(secs / 86_400)) + (['T'] + timeText)
  {
    var secs := nanos / NANOS_PER_SECOND;
    Reassociate(DateText(CivilFromDays(secs / 86_400)), "T", ClockOfDay(secs % 86_400),
                FractionText(nanos % NANOS_PER_SECOND), suffix);
  }

  lemma Reassociate(a: string, b: string, c: string, d: string, e: string)
    ensures ((a + (b + c)) + d) + e == a + (b + ((c + d) + e))
  {
  }

  lemma InstantAddsUp(days: nat, sod: nat, sub: nat)
    requires sod < 86_400 && sub < NANOS_PER_SECOND
    requires (days * 86_400 + sod) * NANOS_PER_SECOND + sub <= U64_MAX
    ensures InstantNanos(days, sod / 3_600, (sod % 3_600) / 60, sod % 60, sub)
         == (days * 86_400 + sod) * NANOS_PER_SECOND + sub
  {
    SecondsAddUp(sod);
    NothingSaturates(days, sod, sub);
  }

  lemma SecondsRead(days: nat, sod: nat, sub: nat, suffix: string)
    requires sod < 86_400 && sub < NANOS_PER_SECOND
    requires (days * 86_400 + sod) * NANOS_PER_SECOND + sub <= U64_MAX
    requires sub == 0 ==> suffix == "" || suffix == "Z" || suffix == "+00:00"
    ensures TimestampToUnixNanos(DateText(CivilFromDays(days))
              + (['T'] + ((ClockOfDay(sod) + FractionText(sub)) + suffix)))
         == (days * 86_400 + sod) * NANOS_PER_SECOND + sub
  {
    DatesOfU64(days);
    CivilFromDaysInverse(days);
    var date := CivilFromDays(days);
    DateTextReads(date);
    ClockTextReads(sod / 3_600, (sod % 3_600) / 60, sod % 60);
    TimeReads(ClockOfDay(sod), sub, suffix);
    var timeText := (ClockOfDay(sod) + FractionText(sub)) + suffix;
    var fraction := SplitTime(StripUtc(timeText)).1;
    PartsRead(DateText(date), timeText, date, ClockOfDay(sod), fraction,
              sod / 3_600, (sod % 3_600) / 60, sod % 60);
    InstantAddsUp(days, sod, sub);
  }

  lemma SecondsAddUp(sod: nat)
    ensures (sod / 3_600) * 3_600 + ((sod % 3_600) / 60) * 60 + sod % 60 == sod
  {
    var hour, rest := sod / 3_600, sod % 3_600;
    var minute, second := rest / 60, rest % 60;
    assert sod == 60 * (60 * hour + minute) + second;
    DivUnique(sod, 60, 60 * hour + minute, second);
  }

  /** No saturating operation of the reader saturates on fields that add up to a
      u64 instant. */
  lemma NothingSaturates(days: nat, secondsOfDay: nat, sub: nat)
    requires secondsOfDay < 86_400 && sub < NANOS_PER_SECOND
    requires (days * 86_400 + secondsOfDay) * NANOS_PER_SECOND + sub <= U64_MAX
    ensures SatMul(days, 86_400) == days * 86_400
    ensures SatAdd(days * 86_400, secondsOfDay) == days * 86_400 + secondsOfDay
    ensures SatMul(days * 86_400 + secondsOfDay, NANOS_PER_SECOND) == (days * 86_400 + secondsOfDay) * NANOS_PER_SECOND
    ensures SatAdd((days * 86_400 + secondsOfDay) * NANOS_PER_SECOND, sub)
         == (days * 86_400 + secondsOfDay) * NANOS_PER_SECOND + sub
  {
  }

  /** Printing then parsing is the identity on every u64 nanosecond count. */
  lemma RoundTrip(nanos: nat)
    requires nanos <= U64_MAX
    ensures TimestampToUnixNanos(UnixNanosToRfc3339(nanos)) == nanos
  {
    StemReads(nanos, "+00:00");
  }

  // ----- text order -----

  /** Equal-width leading fields decide; otherwise what follows the separator does. */
  lemma JoinOrders(a: string, b: string, sep: string, x: string, y: string)
    requires |a| == |b|
    requires TextBefore(a, b) || (a == b && TextBefore(x, y))
    ensures TextBefore(a + (sep + x), b + (sep + y))
  {
    if TextBefore(a, b) {
      TextBeforeExtends(a, b, sep + x, sep + y);
    } else {
      TextBeforePrefixed(sep, x, y);
      TextBeforePrefixed(a, sep + x, sep + y);
    }
  }

  /** Three fixed-width numbers joined by a separator sort field by field. */
  lemma FieldsOrder(a1: nat, a2: nat, a3: nat, b1: nat, b2: nat, b3: nat, w: nat, sep: string)
    requires 0 < w <= 9 && a1 < Pow10(w) && b1 < Pow10(w)
    requires a2 < 100 && b2 < 100 && a3 < 100 && b3 < 100
    requires a1 < b1 || (a1 == b1 && (a2 < b2 || (a2 == b2 && a3 < b3)))
    ensures TextBefore(Join3(Padded(a1, w), Padded(a2, 2), Padded(a3, 2), sep),
                       Join3(Padded(b1, w), Padded(b2, 2), Padded(b3, 2), sep))
  {
    Powers();
    PaddedReads(a1, w);
    PaddedReads(b1, w);
    PaddedReads(a2, 2);
    PaddedReads(b2, 2);
    if a1 < b1 {
      PaddedOrders(a1, b1, w);
    } else {
      if a2 < b2 { PaddedOrders(a2, b2, 2); } else { PaddedOrders(a3, b3, 2); }
      JoinOrders(Padded(a2, 2), Padded(b2, 2), sep, Padded(a3, 2), Padded(b3, 2));
    }
    JoinOrders(Padded(a1, w), Padded(b1, w), sep,
               Padded(a2, 2) + (sep + Padded(a3, 2)), Padded(b2, 2) + (sep + Padded(b3, 2)));
  }

  lemma ClockOrders(a: nat, b: nat)
    requires a < b < 86_400
    ensures TextBefore(ClockOfDay(a), ClockOfDay(b))
  {
    Powers();
    SecondsAddUp(a);
    SecondsAddUp(b);
    FieldsOrder(a / 3_600, (a % 3_600) / 60, a % 60, b / 3_600, (b % 3_600) / 60, b % 60, 2, ":");
  }

  lemma DateTextOrders(a: Date, b: Date)
    requires PrintableDate(a) && PrintableDate(b) && Before(a, b)
    ensures TextBefore(DateText(a), DateText(b))
  {
    Powers();
    FieldsOrder(a.year, a.month, a.day, b.year, b.month, b.day, 4, "-");
  }

  lemma SecondsTextOrders(a: nat, b: nat)
    requires a < b <= U64_MAX / NANOS_PER_SECOND
    ensures |SecondsText(a)| == |SecondsText(b)| && TextBefore(SecondsText(a), SecondsText(b))
  {
    DayTimeOrders(a / 86_400, a % 86_400, b / 86_400, b % 86_400);
  }

  lemma DayTimeOrders(da: nat, sa: nat, db: nat, sb: nat)
    requires da <= db <= U64_MAX / NANOS_PER_SECOND / 86_400 && sa < 86_400 && sb < 86_400
    requires da == db ==> sa < sb
    ensures var ta := DateText(CivilFromDays(da)) + ("T" + ClockOfDay(sa));
            var tb := DateText(CivilFromDays(db)) + ("T" + ClockOfDay(sb));
            |ta| == |tb| && TextBefore(ta, tb)
  {
    var a, b := DateText(CivilFromDays(da)), DateText(CivilFromDays(db));
    var x, y := ClockOfDay(sa), ClockOfDay(sb);
    assert |a| == |b| && |x| == |y| by {
      DayTextShape(da, sa);
      DayTextShape(db, sb);
    }
    assert TextBefore(a, b) || (a == b && TextBefore(x, y)) by {
      if da < db { DatesOrder(da, db); } else { ClockOrders(sa, sb); }
    }
    JoinOrders(a, b, "T", x, y);
  }

  lemma DatesOrder(da: nat, db: nat)
    requires da < db <= U64_MAX / NANOS_PER_SECOND / 86_400
    ensures TextBefore(DateText(CivilFromDays(da)), DateText(CivilFromDays(db)))
  {
    DatesOfU64(da);
    DatesOfU64(db);
    CivilFromDaysOrders(da, db);
    DateTextOrders(CivilFromDays(da), CivilFromDays(db));
  }

  lemma DayTextShape(days: nat, sod: nat)
    requires days <= U64_MAX / NANOS_PER_SECOND / 86_400 && sod < 86_400
    ensures |DateText(CivilFromDays(days))| == 10 && |ClockOfDay(sod)| == 8
  {
    DatesOfU64(days);
    DateTextReads(CivilFromDays(days));
    ClockTextReads(sod / 3_600, (sod % 3_600) / 60, sod % 60);
  }

  lemma SubsecTextOrders(a: nat, b: nat)
    requires a < b < NANOS_PER_SECOND
    ensures TextBefore(FractionText(a) + "+00:00", FractionText(b) + "+00:00")
  {
    if a == 0 {
      assert (FractionText(a) + "+00:00")[0] == '+' && (FractionText(b) + "+00:00")[0] == '.';
    } else {
      Powers();
      PaddedReads(a, 9);
      PaddedReads(b, 9);
      PaddedOrders(a, b, 9);
      TextBeforePrefixed(".", Padded(a, 9), Padded(b, 9));
      TextBeforeExtends("." + Padded(a, 9), "." + Padded(b, 9), "+00:00", "+00:00");
    }
  }

  /** Sorting printed timestamps as text sorts them by time; in particular a
      whole second ('+') sorts before any fraction of it ('.'). */
  lemma TextOrderIsTimeOrder(m: nat, n: nat)
    requires m <= U64_MAX && n <= U64_MAX
    ensures TextBefore(UnixNanosToRfc3339(m), UnixNanosToRfc3339(n)) <==> m < n
  {
    if m < n {
      EarlierSortsFirst(m, n);
    } else {
      if n < m { EarlierSortsFirst(n, m); }
      if TextBefore(UnixNanosToRfc3339(m), UnixNanosToRfc3339(n)) {
        TextBeforeAsymmetric(UnixNanosToRfc3339(m), UnixNanosToRfc3339(n));
      }
    }
  }

  lemma EarlierSortsFirst(m: nat, n: nat)
    requires m < n <= U64_MAX
    ensures TextBefore(UnixNanosToRfc3339(m), UnixNanosToRfc3339(n))
  {
    InstantsOrder(m / NANOS_PER_SECOND, m % NANOS_PER_SECOND, n / NANOS_PER_SECOND, n % NANOS_PER_SECOND);
    StemSplits(m);
    StemSplits(n);
  }

  lemma InstantsOrder(a: nat, x: nat, b: nat, y: nat)
    requires a <= b <= U64_MAX / NANOS_PER_SECOND && x < NANOS_PER_SECOND && y < NANOS_PER_SECOND
    requires a == b ==> x < y
    ensures TextBefore(SecondsText(a) + (FractionText(x) + "+00:00"), SecondsText(b) + (FractionText(y) + "+00:00"))
  {
    if a < b {
      SecondsTextOrders(a, b);
      TextBeforeExtends(SecondsText(a), SecondsText(b), FractionText(x) + "+00:00", FractionText(y) + "+00:00");
    } else {
      SubsecTextOrders(x, y);
      TextBeforePrefixed(SecondsText(a), FractionText(x) + "+00:00", FractionText(y) + "+00:00");
    }
  }

  lemma StemSplits(nanos: nat)
    ensures UnixNanosToRfc3339(nanos)
         == SecondsText(nanos / NANOS_PER_SECOND) + (FractionText(nanos % NANOS_PER_SECOND) + "+00:00")
  {
  }
}
