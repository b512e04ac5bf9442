/** The printed timestamps themselves: what the printer writes, character by character. */
module TimestampFormat {
  import opened Calendar
  import opened Decimal
  import opened MachineInt
  import opened Timestamp

  // ----- the printed text, character by character -----

  function Field(text: string, from: nat, to: nat): nat
    requires from <= to <= |text| && AllDigits(text[from..to])
  {
    DigitsValue(text[from..to])
  }

  predicate IsSeparatorPlace(k: nat) { k == 4 || k == 7 || k == 10 || k == 13 || k == 16 || k == 19 }

  /** RFC 3339 section 5.6 as the observers write it: four, two and two digits of the
      date, two each of the clock, nine digits of a fraction or none, and `+00:00`. */
  ghost predicate HasUtcShape(text: string, fractional: bool) {
    && |text| == (if fractional then 35 else 25)
    && text[4] == '-' && text[7] == '-' && text[10] == 'T' && text[13] == ':' && text[16] == ':'
    && (fractional ==> text[19] == '.')
    && text[|text| - 6..] == "+00:00"
    && forall k: nat | k < |text| - 6 && !IsSeparatorPlace(k) :: IsDigit(text[k])
  }

  lemma DigitsBetween(text: string, fractional: bool, from: nat, to: nat)
    requires HasUtcShape(text, fractional) && from <= to <= |text| - 6
    requires forall k: nat | from <= k < to :: !IsSeparatorPlace(k)
    ensures AllDigits(text[from..to])
  {
  }

  /** The date fields of a printed text. */
  function DateField(text: string): Date
    requires |text| >= 10 && AllDigits(text[0..4]) && AllDigits(text[5..7]) && AllDigits(text[8..10])
  {
    Date(Field(text, 0, 4), Field(text, 5, 7), Field(text, 8, 10))
  }

  /** The digits of the clock and the fraction can be read off. */
  ghost predicate HasFields(text: string) {
    && |text| >= 19
    && AllDigits(text[0..4]) && AllDigits(text[5..7]) && AllDigits(text[8..10])
    && AllDigits(text[11..13]) && AllDigits(text[14..16]) && AllDigits(text[17..19])
    && (|text| == 35 ==> AllDigits(text[20..29]))
  }

  ghost function ClockSeconds(text: string): nat
    requires HasFields(text)
  {
    Field(text, 11, 13) * 3_600 + Field(text, 14, 16) * 60 + Field(text, 17, 19)
  }

  ghost function FractionField(text: string): nat
    requires HasFields(text)
  {
    if |text| == 35 then Field(text, 20, 29) else 0
  }

  /** What the fields add up to, in the day-by-day calendar. */
  ghost predicate SaysInstant(text: string, nanos: nat) {
    && HasUtcShape(text, nanos % NANOS_PER_SECOND != 0) && HasFields(text)
    && ValidDate(DateField(text))
    && Field(text, 11, 13) < 24 && Field(text, 14, 16) < 60 && Field(text, 17, 19) < 60
    && nanos == (DaysFromCivil(DateField(text)) * 86_400 + ClockSeconds(text)) * NANOS_PER_SECOND + FractionField(text)
  }

  /** Where the six fields and the tail stand. */
  lemma Layout(year: string, month: string, day: string, hour: string, minute: string, second: string, tail: string)
    requires |year| == 4 && |month| == |day| == |hour| == |minute| == |second| == 2
    ensures var text := (Join3(year, month, day, "-") + ("T" + Join3(hour, minute, second, ":"))) + tail;
            && |text| == 19 + |tail| && text[19..] == tail
            && text[0..4] == year && text[5..7] == month && text[8..10] == day
            && text[11..13] == hour && text[14..16] == minute && text[17..19] == second
            && text[4] == '-' && text[7] == '-' && text[10] == 'T' && text[13] == ':' && text[16] == ':'
  {
    var date, clock := Join3(year, month, day, "-"), Join3(hour, minute, second, ":");
    Layout3(year, month, day, "-");
    Layout3(hour, minute, second, ":");
    var text := (date + ("T" + clock)) + tail;
    assert text[..10] == date && text[11..19] == clock;
    Within(text, 0, 10, 0, 4);
    Within(text, 0, 10, 5, 7);
    Within(text, 0, 10, 8, 10);
    Within(text, 11, 19, 0, 2);
    Within(text, 11, 19, 3, 5);
    Within(text, 11, 19, 6, 8);
    assert text[4] == date[4] && text[7] == date[7] && text[13] == clock[2] && text[16] == clock[5];
  }

  lemma Within(text: string, from: nat, to: nat, a: nat, b: nat)
    requires from <= to <= |text| && a <= b <= to - from
    ensures text[from..to][a..b] == text[from + a..from + b]
  {
    var outer, inner := text[from..to], text[from + a..from + b];
    forall k: nat | k < b - a ensures outer[a..b][k] == inner[k] { assert outer[a + k] == text[from + a + k]; }
  }

  lemma Layout3(a: string, b: string, c: string, sep: string)
    requires |b| == 2 && |c| == 2 && |sep| == 1
    ensures var text, n := Join3(a, b, c, sep), |a|;
            && |text| == n + 6 && text[0..n] == a && text[n + 1..n + 3] == b && text[n + 4..n + 6] == c
            && text[n] == sep[0] && text[n + 3] == sep[0]
  {
  }

  /** A fragment of digits keeps them digits where it stands. */
  lemma DigitsStand(text: string, from: nat, to: nat, part: string)
    requires from <= to <= |text| && text[from..to] == part && AllDigits(part)
    ensures forall k: nat | from <= k < to :: IsDigit(text[k])
  {
    forall k: nat | from <= k < to ensures IsDigit(text[k]) { assert part[k - from] == text[k]; }
  }

  /** The printed text of every u64 instant, from the text alone: its shape, character
      by character, and that its fields are a calendar date and a time of day that add
      up to the instant. */
  lemma PrintedSaysInstant(nanos: nat)
    requires nanos <= U64_MAX
    ensures SaysInstant(UnixNanosToRfc3339(nanos), nanos)
  {
    var secs, sub := nanos / NANOS_PER_SECOND, nanos % NANOS_PER_SECOND;
    DayAndTime(nanos);
    PrintedIsAssembled(nanos);
    DayCountSays(secs / 86_400, secs % 86_400, sub, UnixNanosToRfc3339(nanos), nanos);
  }

  lemma DayAndTime(nanos: nat)
    requires nanos <= U64_MAX
    ensures var secs := nanos / NANOS_PER_SECOND;
            && nanos == ((secs / 86_400) * 86_400 + secs % 86_400) * NANOS_PER_SECOND + nanos % NANOS_PER_SECOND
            && secs / 86_400 <= U64_MAX / NANOS_PER_SECOND / 86_400
  {
  }

  lemma PrintedIsAssembled(nanos: nat)
    ensures var secs := nanos / NANOS_PER_SECOND;
            UnixNanosToRfc3339(nanos)
            == Assembled(CivilFromDays(secs / 86_400), secs % 86_400, nanos % NANOS_PER_SECOND)
  {
    StemSplits(nanos);
  }

  lemma DayCountSays(days: nat, sod: nat, sub: nat, text: string, nanos: nat)
    requires days <= U64_MAX / NANOS_PER_SECOND / 86_400 && sod < 86_400 && sub < NANOS_PER_SECOND
    requires text == Assembled(CivilFromDays(days), sod, sub)
    requires nanos == (days * 86_400 + sod) * NANOS_PER_SECOND + sub
    ensures SaysInstant(text, nanos)
  {
    DatesOfU64(days);
    CivilFromDaysInverse(days);
    var date := CivilFromDays(days);
    AssembledShape(date, sod, sub);
    AssembledFields(date, sod, sub);
    FieldsSay(text, date, days, sod, sub, nanos);
  }

  /** A text from its parts. */
  function Assembled(date: Date, sod: nat, sub: nat): string {
    (DateText(date) + ("T" + ClockOfDay(sod))) + (FractionText(sub) + "+00:00")
  }

  lemma FieldsSay(text: string, date: Date, days: nat, sod: nat, sub: nat, nanos: nat)
    requires nanos == (days * 86_400 + sod) * NANOS_PER_SECOND + sub
    requires ValidDate(date) && DaysFromCivil(date) == days && sub < NANOS_PER_SECOND
    requires HasUtcShape(text, sub != 0) && HasFields(text) && DateField(text) == date
    requires FractionField(text) == sub && ClockSeconds(text) == sod
    requires Field(text, 11, 13) < 24 && Field(text, 14, 16) < 60 && Field(text, 17, 19) < 60
    ensures SaysInstant(text, nanos)
  {
    InstantRemainder(days * 86_400 + sod, sub);
  }

  /** Shape from the pieces. */
  lemma PiecesHaveShape(text: string, fractional: bool)
    requires |text| == (if fractional then 35 else 25) && text[|text| - 6..] == "+00:00"
    requires text[4] == '-' && text[7] == '-' && text[10] == 'T' && text[13] == ':' && text[16] == ':'
    requires fractional ==> text[19] == '.' && AllDigits(text[20..29])
    requires HasFields(text)
    ensures HasUtcShape(text, fractional)
  {
    DigitsStand(text, 0, 4, text[0..4]);
    DigitsStand(text, 5, 7, text[5..7]);
    DigitsStand(text, 8, 10, text[8..10]);
    DigitsStand(text, 11, 13, text[11..13]);
    DigitsStand(text, 14, 16, text[14..16]);
    DigitsStand(text, 17, 19, text[17..19]);
    if fractional { DigitsStand(text, 20, 29, text[20..29]); }
  }

  lemma AssembledShape(date: Date, sod: nat, sub: nat)
    requires PrintableDate(date) && sod < 86_400 && sub < NANOS_PER_SECOND
    ensures HasUtcShape(Assembled(date, sod, sub), sub != 0)
  {
    AssembledFields(date, sod, sub);
    TailSays(Assembled(date, sod, sub), sub);
    PiecesHaveShape(Assembled(date, sod, sub), sub != 0);
  }

  lemma AssembledFields(date: Date, sod: nat, sub: nat)
    requires PrintableDate(date) && sod < 86_400 && sub < NANOS_PER_SECOND
    ensures var text := Assembled(date, sod, sub);
            && HasFields(text) && |text| == (if sub != 0 then 35 else 25)
            && text[19..] == FractionText(sub) + "+00:00"
            && text[4] == '-' && text[7] == '-' && text[10] == 'T' && text[13] == ':' && text[16] == ':'
            && DateField(text) == date && FractionField(text) == sub && ClockSeconds(text) == sod
            && Field(text, 11, 13) < 24 && Field(text, 14, 16) < 60 && Field(text, 17, 19) < 60
  {
    SecondsAddUp(sod);
    LaidOut(Assembled(date, sod, sub), date, sod / 3_600, (sod % 3_600) / 60, sod % 60, sub);
  }

  lemma LaidOut(text: string, date: Date, hour: nat, minute: nat, second: nat, sub: nat)
    requires PrintableDate(date) && hour < 24 && minute < 60 && second < 60 && sub < NANOS_PER_SECOND
    requires text == (Join3(Padded(date.year, 4), Padded(date.month, 2), Padded(date.day, 2), "-")
                      + ("T" + Join3(Padded(hour, 2), Padded(minute, 2), Padded(second, 2), ":")))
                     + (FractionText(sub) + "+00:00")
    ensures HasFields(text) && |text| == (if sub != 0 then 35 else 25)
    ensures text[19..] == FractionText(sub) + "+00:00"
    ensures text[4] == '-' && text[7] == '-' && text[10] == 'T' && text[13] == ':' && text[16] == ':'
    ensures DateField(text) == date && FractionField(text) == sub
    ensures Field(text, 11, 13) == hour && Field(text, 14, 16) == minute && Field(text, 17, 19) == second
  {
    FieldWidths(date, hour, minute, second);
    Layout(Padded(date.year, 4), Padded(date.month, 2), Padded(date.day, 2),
           Padded(hour, 2), Padded(minute, 2), Padded(second, 2), FractionText(sub) + "+00:00");
    TailSays(text, sub);
    FieldsRead(text, date, hour, minute, second);
  }

  lemma FieldWidths(date: Date, hour: nat, minute: nat, second: nat)
    requires PrintableDate(date) && hour < 100 && minute < 100 && second < 100
    ensures |Padded(date.year, 4)| == 4 && |Padded(date.month, 2)| == 2 && |Padded(date.day, 2)| == 2
    ensures |Padded(hour, 2)| == 2 && |Padded(minute, 2)| == 2 && |Padded(second, 2)| == 2
  {
    Powers();
    PaddedReads(date.year, 4);
    PaddedReads(date.month, 2);
    PaddedReads(date.day, 2);
    PaddedReads(hour, 2);
    PaddedReads(minute, 2);
    PaddedReads(second, 2);
  }

  lemma FieldsRead(text: string, date: Date, hour: nat, minute: nat, second: nat)
    requires PrintableDate(date) && hour < 100 && minute < 100 && second < 100 && |text| >= 19
    requires text[0..4] == Padded(date.year, 4)
    requires text[5..7] == Padded(date.month, 2) && text[8..10] == Padded(date.day, 2)
    requires text[11..13] == Padded(hour, 2) && text[14..16] == Padded(minute, 2) && text[17..19] == Padded(second, 2)
    requires |text| == 35 ==> AllDigits(text[20..29])
    ensures HasFields(text) && DateField(text) == date
    ensures Field(text, 11, 13) == hour && Field(text, 14, 16) == minute && Field(text, 17, 19) == second
  {
    Powers();
    PaddedReads(date.year, 4);
    PaddedReads(date.month, 2);
    PaddedReads(date.day, 2);
    PaddedReads(hour, 2);
    PaddedReads(minute, 2);
    PaddedReads(second, 2);
  }

  lemma InstantRemainder(secs: nat, sub: nat)
    requires sub < NANOS_PER_SECOND
    ensures (secs * NANOS_PER_SECOND + sub) % NANOS_PER_SECOND == sub
  {
    DivUnique(secs * NANOS_PER_SECOND + sub, NANOS_PER_SECOND, secs, sub);
  }

  lemma TailSays(text: string, sub: nat)
    requires |text| >= 19 && sub < NANOS_PER_SECOND && text[19..] == FractionText(sub) + "+00:00"
    ensures |text| == (if sub != 0 then 35 else 25) && text[|text| - 6..] == "+00:00"
    ensures sub != 0 ==> text[19] == '.' && AllDigits(text[20..29]) && Field(text, 20, 29) == sub
  {
    Powers();
    PaddedReads(sub, 9);
    if sub != 0 {
      LongTail(text, Padded(sub, 9));
    } else {
      assert text == text[..19] + "+00:00";
    }
  }

  lemma LongTail(text: string, digits: string)
    requires |text| >= 19 && |digits| == 9 && text[19..] == ("." + digits) + "+00:00"
    ensures |text| == 35 && text[29..] == "+00:00" && text[19] == '.' && text[20..29] == digits
  {
    var tail := ("." + digits) + "+00:00";
    assert text == text[..19] + tail;
    assert tail[1..10] == digits && tail[10..] == "+00:00";
  }
}
