/** The two date conversions of the timestamp codec, and the day-by-day Gregorian
    calendar they are both measured against. */
module Calendar {

  datatype Date = Date(year: int, month: int, day: int)

  // ----- reference calendar: month lengths and leap rule of RFC 3339 -----

  predicate IsLeap(y: int) {
    y % 4 == 0 && (y % 100 != 0 || y % 400 == 0)
  }

  function DaysInMonth(y: int, m: int): (n: int)
    requires 1 <= m <= 12
  {
    if m == 2 then (if IsLeap(y) then 29 else 28)
    else if m == 4 || m == 6 || m == 9 || m == 11 then 30
    else 31
  }

  predicate ValidDate(d: Date) {
    1 <= d.month <= 12 && 1 <= d.day <= DaysInMonth(d.year, d.month)
  }

  /** The calendar day after `d`. */
  function NextDay(d: Date): (n: Date)
    requires ValidDate(d)
  {
    if d.day < DaysInMonth(d.year, d.month) then d.(day := d.day + 1)
    else if d.month < 12 then Date(d.year, d.month + 1, 1)
    else Date(d.year + 1, 1, 1)
  }

  predicate Before(a: Date, b: Date) {
    a.year < b.year
    || (a.year == b.year && (a.month < b.month || (a.month == b.month && a.day < b.day)))
  }

  // ----- the source's conversions; its `/` truncates toward zero -----

  function TruncDiv(a: int, b: int): int
    requires b > 0
  {
    if a >= 0 then a / b else -((-a) / b)
  }

  function CivilFromDays(days: int): Date {
    var z := days + 719468;
    var era := TruncDiv(if z >= 0 then z else z - 146096, 146097);
    DateInEra(era, z - era * 146097)
  }

  /** The date of day `doe` of a 400-year era. */
  function DateInEra(era: int, doe: int): Date {
    var yoe := TruncDiv(doe - TruncDiv(doe, 1460) + TruncDiv(doe, 36524) - TruncDiv(doe, 146096), 365);
    DateInYear(yoe + era * 400, doe - (365 * yoe + TruncDiv(yoe, 4) - TruncDiv(yoe, 100)))
  }

  /** The date of day `doy` of the year that starts on 1 March of `year`. */
  function DateInYear(year: int, doy: int): Date {
    var mp := TruncDiv(5 * doy + 2, 153);
    var day := doy - TruncDiv(153 * mp + 2, 5) + 1;
    var month := mp + (if mp < 10 then 3 else -9);
    Date(if month <= 2 then year + 1 else year, month, day)
  }

  function DaysFromCivil(d: Date): int {
    var year := d.year - (if d.month <= 2 then 1 else 0);
    var era := TruncDiv(if year >= 0 then year else year - 399, 400);
    var yoe := year - era * 400;
    var month := d.month + (if d.month > 2 then -3 else 9);
    var doy := TruncDiv(153 * month + 2, 5) + d.day - 1;
    var doe := yoe * 365 + TruncDiv(yoe, 4) - TruncDiv(yoe, 100) + doy;
    era * 146097 + doe - 719468
  }

  // ----- March-based years: the shape both conversions work in -----

  /** Days from 1 March of year 0 to 1 March of year `y`. */
  function YearStart(y: int): int { 365 * y + y / 4 - y / 100 + y / 400 }

  /** Days from 1 March to the first of the `mp`-th month after it. */
  function MonthStart(mp: int): int { (153 * mp + 2) / 5 }

  function MarchYear(d: Date): int { if d.month <= 2 then d.year - 1 else d.year }

  function MarchMonth(d: Date): int { if d.month > 2 then d.month - 3 else d.month + 9 }

  lemma DaysFromCivilClosed(d: Date)
    requires 1 <= d.month <= 12
    ensures DaysFromCivil(d) == YearStart(MarchYear(d)) + MonthStart(MarchMonth(d)) + d.day - 1 - 719468
  {
    var y := MarchYear(d);
    var era := y / 400;
    assert TruncDiv(if y >= 0 then y else y - 399, 400) == era;
    var yoe := y - era * 400;
    assert 0 <= yoe < 400;
    assert y / 4 == era * 100 + yoe / 4;
    assert y / 100 == era * 4 + yoe / 100;
  }

  lemma DivStep(y: int, k: int)
    requires k > 1
    ensures (y + 1) / k == y / k + (if (y + 1) % k == 0 then 1 else 0)
  {
    var q, r := (y + 1) / k, (y + 1) % k;
    assert y + 1 == k * q + r;
    if r == 0 {
      assert y == k * (q - 1) + (k - 1);
      DivUnique(y, k, q - 1, k - 1);
    } else {
      assert y == k * q + (r - 1);
      DivUnique(y, k, q, r - 1);
    }
  }

  lemma DivUnique(y: int, k: int, q: int, r: int)
    requires 0 <= r < k && y == k * q + r
    ensures y / k == q && y % k == r
  {
    var q', r' := y / k, y % k;
    assert y == k * q' + r';
    assert k * (q' - q) == k * q' - k * q;
    assert k * (q - q') == k * q - k * q';
    if q' > q { MulAtLeast(k, q' - q); }
    if q' < q { MulAtLeast(k, q - q'); }
  }

  lemma MulAtLeast(k: int, d: int)
    requires 0 < k && 1 <= d
    ensures k * d >= k
  {
  }

  lemma YearLength(y: int)
    ensures YearStart(y + 1) - YearStart(y) == if IsLeap(y + 1) then 366 else 365
  {
    DivStep(y, 4);
    DivStep(y, 100);
    DivStep(y, 400);
    LeapRuleNests(y + 1);
  }

  lemma LeapRuleNests(y: int)
    ensures y % 400 == 0 ==> y % 100 == 0
    ensures y % 100 == 0 ==> y % 4 == 0
  {
    if y % 400 == 0 { DivUnique(y, 100, 4 * (y / 400), 0); }
    if y % 100 == 0 { DivUnique(y, 4, 25 * (y / 100), 0); }
  }

  /** Table of the first eleven March-based month lengths. */
  lemma MonthLength(y: int, m: int)
    requires 1 <= m <= 12 && m != 2
    ensures DaysInMonth(y, m) ==
            MonthStart(MarchMonth(Date(y, m, 1)) + 1) - MonthStart(MarchMonth(Date(y, m, 1)))
  {
  }

  /** The day after the last of a month, when that is not the end of February. */
  lemma MonthTurnCounts(d: Date)
    requires ValidDate(d) && d.day == DaysInMonth(d.year, d.month) && d.month != 2
    ensures DaysFromCivil(NextDay(d)) == DaysFromCivil(d) + 1
  {
    var n := NextDay(d);
    DaysFromCivilClosed(d);
    DaysFromCivilClosed(n);
    MonthLength(d.year, d.month);
    assert MarchMonth(n) == MarchMonth(d) + 1 && MarchYear(n) == MarchYear(d);
  }

  lemma FebruaryTurnCounts(y: int, day: int)
    requires day == DaysInMonth(y, 2)
    ensures DaysFromCivil(Date(y, 3, 1)) == DaysFromCivil(Date(y, 2, day)) + 1
  {
    DaysFromCivilClosed(Date(y, 2, day));
    DaysFromCivilClosed(Date(y, 3, 1));
    YearLength(y - 1);
    assert MonthStart(11) == 337 && MonthStart(0) == 0;
  }

  /** One day later in the calendar is one more in the day count. */
  lemma NextDayCounts(d: Date)
    requires ValidDate(d)
    ensures ValidDate(NextDay(d))
    ensures DaysFromCivil(NextDay(d)) == DaysFromCivil(d) + 1
  {
    if d.day < DaysInMonth(d.year, d.month) {
      DaysFromCivilClosed(d);
      DaysFromCivilClosed(NextDay(d));
    } else if d.month == 2 {
      FebruaryTurnCounts(d.year, d.day);
    } else {
      MonthTurnCounts(d);
    }
  }

  // ----- the era arithmetic of CivilFromDays -----

  /** The estimate of the year within a 400-year era from the day within it. */
  function YearEstimate(doe: int): int { doe - doe / 1460 + doe / 36524 - doe / 146096 }

  /** A day of the era split by centuries, four-year cycles and years; the last
      day of the era belongs to no full century. */
  lemma YearParts(c: int, q: int, t: int)
    requires 0 <= c <= 3 && 0 <= q <= 24 && 0 <= t <= 3
    ensures YearStart(100 * c + 4 * q + t) == 36524 * c + 1461 * q + 365 * t
  {
    DivUnique(100 * c + 4 * q + t, 4, 25 * c + q, t);
    DivUnique(100 * c + 4 * q + t, 100, c, 4 * q + t);
    DivUnique(100 * c + 4 * q + t, 400, 0, 100 * c + 4 * q + t);
  }

  lemma YearAfter(c: int, q: int, t: int)
    requires 0 <= c <= 3 && 0 <= q <= 24 && 0 <= t <= 3
    ensures YearStart(100 * c + 4 * q + t + 1) ==
            if t < 3 then 36524 * c + 1461 * q + 365 * t + 365
            else if q < 24 then 36524 * c + 1461 * q + 1461
            else if c < 3 then 36524 * c + 36524
            else 146097
  {
    if t < 3 { YearParts(c, q, t + 1); }
    else if q < 24 { YearParts(c, q + 1, 0); }
    else if c < 3 { YearParts(c + 1, 0, 0); }
  }

  lemma YearOfEra(doe: int) returns (y: int)
    requires 0 <= doe < 146097
    ensures y == YearEstimate(doe) / 365
    ensures 0 <= y < 400
    ensures YearStart(y) <= doe < YearStart(y + 1)
  {
    if doe == 146096 {
      y := 399;
    } else {
      var c := doe / 36524;
      var r := doe - 36524 * c;
      var q, s := r / 1461, r % 1461;
      var t := if s < 1095 then s / 365 else 3;
      var e := if 24 * c + q + s < 1460 then 0 else 1;
      DivUnique(doe, 1460, 25 * c + q + e, 24 * c + q + s - 1460 * e);
      DivUnique(doe, 146096, 0, doe);
      y := 100 * c + 4 * q + t;
      DivUnique(YearEstimate(doe), 365, y, s - e - 365 * t);
      YearParts(c, q, t);
      YearAfter(c, q, t);
    }
  }

  lemma MonthOfYear(doy: int) returns (mp: int)
    requires 0 <= doy <= 365
    ensures mp == (5 * doy + 2) / 153 && 0 <= mp <= 11
    ensures MonthStart(mp) <= doy
    ensures mp < 11 ==> doy < MonthStart(mp + 1)
  {
    mp := (5 * doy + 2) / 153;
  }

  lemma EraShift(y: int, era: int)
    ensures YearStart(y + era * 400) == YearStart(y) + era * 146097
    ensures IsLeap(y + era * 400) == IsLeap(y)
  {
    DivUnique(y + era * 400, 4, y / 4 + 100 * era, y % 4);
    DivUnique(y + era * 400, 100, y / 100 + 4 * era, y % 100);
    DivUnique(y + era * 400, 400, y / 400 + era, y % 400);
  }

  /** The source's truncating era division floors. */
  lemma EraOf(n: int) returns (era: int, doe: int)
    ensures 0 <= doe < 146097 && n + 719468 == era * 146097 + doe
    ensures CivilFromDays(n) == DateInEra(era, doe)
  {
    var z := n + 719468;
    era := TruncDiv(if z >= 0 then z else z - 146096, 146097);
    doe := z - era * 146097;
  }

  /** The date of a day of a March-based year: its month start is the last one
      not after it. */
  lemma DateInYearParts(year: int, doy: int)
    requires 0 <= doy <= 365
    ensures var d := DateInYear(year, doy);
            var mp := MarchMonth(d);
            && 1 <= d.month <= 12 && MarchYear(d) == year
            && MonthStart(mp) <= doy && d.day == doy - MonthStart(mp) + 1
            && (mp < 11 ==> doy < MonthStart(mp + 1))
  {
    var mp := MonthOfYear(doy);
  }

  lemma DateInEraParts(era: int, doe: int) returns (yoe: int, doy: int)
    requires 0 <= doe < 146097
    ensures 0 <= yoe < 400 && doe == YearStart(yoe) + doy
    ensures 0 <= doy < YearStart(yoe + 1) - YearStart(yoe)
    ensures DateInEra(era, doe) == DateInYear(yoe + era * 400, doy)
  {
    yoe := YearOfEra(doe);
    assert yoe / 400 == 0;
    doy := doe - YearStart(yoe);
  }

  lemma DateInYearCounts(year: int, doy: int)
    requires 0 <= doy < YearStart(year + 1) - YearStart(year)
    ensures ValidDate(DateInYear(year, doy))
    ensures DaysFromCivil(DateInYear(year, doy)) == YearStart(year) + doy - 719468
  {
    YearLength(year);
    DateInYearParts(year, doy);
    var d := DateInYear(year, doy);
    DaysFromCivilClosed(d);
    if d.month != 2 {
      MonthLength(d.year, d.month);
    } else {
      assert MonthStart(11) == 337;
    }
  }

  lemma EraShiftLength(y: int, era: int)
    ensures var s := y + era * 400;
            YearStart(s + 1) - YearStart(s) == YearStart(y + 1) - YearStart(y)
  {
    EraShift(y + 1, era);
    YearLength(y);
    YearLength(y + era * 400);
  }

  lemma DateInShiftedYear(era: int, yoe: int, doy: int)
    requires 0 <= doy < YearStart(yoe + 1) - YearStart(yoe)
    ensures ValidDate(DateInYear(yoe + era * 400, doy))
    ensures DaysFromCivil(DateInYear(yoe + era * 400, doy)) == era * 146097 + YearStart(yoe) + doy - 719468
  {
    EraShift(yoe, era);
    EraShiftLength(yoe, era);
    DateInYearCounts(yoe + era * 400, doy);
  }

  lemma DateInEraCounts(era: int, doe: int)
    requires 0 <= doe < 146097
    ensures ValidDate(DateInEra(era, doe))
    ensures DaysFromCivil(DateInEra(era, doe)) == era * 146097 + doe - 719468
  {
    var yoe, doy := DateInEraParts(era, doe);
    DateInShiftedYear(era, yoe, doy);
  }

  /** Every day count prints as a real calendar date, and that date counts back
      to it. */
  lemma CivilFromDaysInverse(n: int)
    ensures ValidDate(CivilFromDays(n))
    ensures DaysFromCivil(CivilFromDays(n)) == n
  {
    var era, doe := EraOf(n);
    DateInEraCounts(era, doe);
  }

  // ----- uniqueness, and the main results -----

  lemma YearStartGrows(a: int, b: int)
    requires a < b
    ensures YearStart(a + 1) <= YearStart(b)
    decreases b - a
  {
    if a + 1 < b {
      YearLength(b - 1);
      YearStartGrows(a, b - 1);
    }
  }

  lemma DayOfYearBound(d: Date)
    requires ValidDate(d)
    ensures 0 <= MonthStart(MarchMonth(d)) + d.day - 1 < YearStart(MarchYear(d) + 1) - YearStart(MarchYear(d))
  {
    YearLength(MarchYear(d));
    if d.month != 2 { MonthLength(d.year, d.month); }
  }

  /** Day counts order dates as the calendar does. */
  lemma DaysFromCivilOrders(a: Date, b: Date)
    requires ValidDate(a) && ValidDate(b)
    ensures Before(a, b) <==> DaysFromCivil(a) < DaysFromCivil(b)
  {
    if Before(a, b) { DaysFromCivilGrows(a, b); }
    else if Before(b, a) { DaysFromCivilGrows(b, a); }
  }

  lemma DaysFromCivilGrows(a: Date, b: Date)
    requires ValidDate(a) && ValidDate(b) && Before(a, b)
    ensures DaysFromCivil(a) < DaysFromCivil(b)
  {
    if MarchYear(a) < MarchYear(b) {
      GrowsAcrossYears(a, b);
    } else if MarchMonth(a) < MarchMonth(b) {
      GrowsWithinYear(a, b);
    } else {
      DaysFromCivilClosed(a);
      DaysFromCivilClosed(b);
    }
  }

  lemma GrowsAcrossYears(a: Date, b: Date)
    requires ValidDate(a) && ValidDate(b) && MarchYear(a) < MarchYear(b)
    ensures DaysFromCivil(a) < DaysFromCivil(b)
  {
    DaysFromCivilClosed(a);
    DaysFromCivilClosed(b);
    DayOfYearBound(a);
    DayOfYearBound(b);
    YearStartGrows(MarchYear(a), MarchYear(b));
  }

  lemma GrowsWithinYear(a: Date, b: Date)
    requires ValidDate(a) && ValidDate(b)
    requires MarchYear(a) == MarchYear(b) && MarchMonth(a) < MarchMonth(b)
    ensures DaysFromCivil(a) < DaysFromCivil(b)
  {
    DaysFromCivilClosed(a);
    DaysFromCivilClosed(b);
    MonthLength(a.year, a.month);
    MonthStartGrows(MarchMonth(a) + 1, MarchMonth(b));
  }

  lemma MonthStartGrows(a: int, b: int)
    requires 0 <= a <= b
    ensures MonthStart(a) <= MonthStart(b)
  {
  }

  /** Every valid date survives the other composition. */
  lemma DaysFromCivilInverse(d: Date)
    requires ValidDate(d)
    ensures CivilFromDays(DaysFromCivil(d)) == d
  {
    var n := DaysFromCivil(d);
    CivilFromDaysInverse(n);
    DaysFromCivilOrders(d, CivilFromDays(n));
    DaysFromCivilOrders(CivilFromDays(n), d);
  }

  lemma Epoch()
    ensures CivilFromDays(0) == Date(1970, 1, 1)
  {
    var d := Date(1970, 1, 1);
    DaysFromCivilClosed(d);
    assert YearStart(1969) == 719162;
    DaysFromCivilInverse(d);
  }

  /** CivilFromDays is the day-by-day calendar counted from 1970-01-01. */
  lemma CivilFromDaysRefinesCalendar(n: int)
    ensures CivilFromDays(0) == Date(1970, 1, 1)
    ensures ValidDate(CivilFromDays(n))
    ensures CivilFromDays(n + 1) == NextDay(CivilFromDays(n))
  {
    Epoch();
    CivilFromDaysInverse(n);
    SuccessorIsNextDay(CivilFromDays(n), n);
  }

  lemma SuccessorIsNextDay(d: Date, n: int)
    requires ValidDate(d) && DaysFromCivil(d) == n
    ensures CivilFromDays(n + 1) == NextDay(d)
  {
    NextDayCounts(d);
    DaysFromCivilInverse(NextDay(d));
  }

  lemma CivilFromDaysOrders(m: int, n: int)
    ensures m < n <==> Before(CivilFromDays(m), CivilFromDays(n))
  {
    CivilFromDaysInverse(m);
    CivilFromDaysInverse(n);
    DaysFromCivilOrders(CivilFromDays(m), CivilFromDays(n));
  }
}
