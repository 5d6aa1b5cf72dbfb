/** A proleptic Gregorian calendar of whole days, the part of java.time.LocalDate that the
    recurrence rules use: construction from (year, month, day), the year/month/day fields, adding
    days, weeks and months, day differences, the day of the week and `nextOrSame`. */
module Calendar {

  predicate IsLeapYear(year: int) {
    year % 4 == 0 && (year % 100 != 0 || year % 400 == 0)
  }

  function MonthLength(year: int, month: int): (n: int)
    requires 1 <= month <= 12
    ensures 28 <= n <= 31
  {
    if month == 2 then (if IsLeapYear(year) then 29 else 28)
    else if month == 4 || month == 6 || month == 9 || month == 11 then 30
    else 31
  }

  function YearLength(year: int): int {
    if IsLeapYear(year) then 366 else 365
  }

  /** The arguments `LocalDate.of` accepts (it throws on any other month or day). */
  predicate ValidYmd(year: int, month: int, day: int) {
    1 <= month <= 12 && 1 <= day <= MonthLength(year, month)
  }

  /** A calendar day written as year, month and day of the month. */
  datatype Ymd = Ymd(year: int, month: int, day: int)

  /** Days from 0001-01-01 to 1970-01-01. */
  const EpochOffset := 719162

  /** Days from 0001-01-01 to the first day of `year`. */
  function DaysBeforeYear(year: int): int {
    var p := year - 1;
    365 * p + p / 4 - p / 100 + p / 400
  }

  /** Days from the first of the year to the first of `month`; month 13 stands for the next year. */
  function DaysBeforeMonth(year: int, month: int): int
    requires 1 <= month <= 13
  {
    var common :=
      if month == 1 then 0 else if month == 2 then 31 else if month == 3 then 59
      else if month == 4 then 90 else if month == 5 then 120 else if month == 6 then 151
      else if month == 7 then 181 else if month == 8 then 212 else if month == 9 then 243
      else if month == 10 then 273 else if month == 11 then 304 else if month == 12 then 334
      else 365;
    common + (if month > 2 && IsLeapYear(year) then 1 else 0)
  }

  /** The epoch day (1970-01-01 is day 0) of a year, month and day. */
  function DayNumber(c: Ymd): int
    requires 1 <= c.month <= 12
  {
    DaysBeforeYear(c.year) + DaysBeforeMonth(c.year, c.month) + c.day - 1 - EpochOffset
  }

  lemma {:induction false} DaysBeforeYearBounds(year: int)
    ensures 146097 * (year - 1) - 699 <= 400 * DaysBeforeYear(year) <= 146097 * (year - 1) + 396
  {
    var p := year - 1;
    assert p == 4 * (p / 4) + p % 4;
    assert p == 100 * (p / 100) + p % 100;
    assert p == 400 * (p / 400) + p % 400;
  }

  /** The number of multiples of 4, 100 and 400 up to `year` grows by one exactly at a multiple. */
  lemma {:induction false} QuotientSteps(year: int)
    ensures year / 4 == (year - 1) / 4 + (if year % 4 == 0 then 1 else 0)
    ensures year / 100 == (year - 1) / 100 + (if year % 100 == 0 then 1 else 0)
    ensures year / 400 == (year - 1) / 400 + (if year % 400 == 0 then 1 else 0)
  {
  }

  lemma {:induction false} YearLengthIsGap(year: int)
    ensures DaysBeforeYear(year + 1) == DaysBeforeYear(year) + YearLength(year)
  {
    var p := year - 1;
    assert DaysBeforeYear(year + 1) == 365 * year + year / 4 - year / 100 + year / 400;
    assert DaysBeforeYear(year) == 365 * p + p / 4 - p / 100 + p / 400;
    QuotientSteps(year);
    var leapDays := (if year % 4 == 0 then 1 else 0) - (if year % 100 == 0 then 1 else 0)
      + (if year % 400 == 0 then 1 else 0);
    assert YearLength(year) == 365 + leapDays;
  }

  lemma MonthLengthIsGap(year: int, month: int)
    requires 1 <= month <= 12
    ensures DaysBeforeMonth(year, month + 1) == DaysBeforeMonth(year, month) + MonthLength(year, month)
    ensures DaysBeforeMonth(year, 13) == YearLength(year)
  {
  }

  lemma MonthsAreOrdered(year: int, a: int, b: int)
    requires 1 <= a < b <= 13
    ensures DaysBeforeMonth(year, a) + 28 <= DaysBeforeMonth(year, b)
  {
  }

  /** The year that day number `n` (days since 0001-01-01) falls in: a guess from the average year
      length, which is never more than one year off. */
  function YearOfDayNumber(n: int): (year: int)
    ensures DaysBeforeYear(year) <= n < DaysBeforeYear(year + 1)
  {
    var guess := (400 * n) / 146097 + 1;
    DaysBeforeYearBounds(guess - 1);
    DaysBeforeYearBounds(guess + 2);
    if DaysBeforeYear(guess + 1) <= n then guess + 1
    else if DaysBeforeYear(guess) <= n then guess
    else guess - 1
  }

  lemma {:induction false} YearOfDayNumberUnique(a: int, b: int, n: int)
    requires DaysBeforeYear(a) <= n < DaysBeforeYear(a + 1)
    requires DaysBeforeYear(b) <= n < DaysBeforeYear(b + 1)
    ensures a == b
  {
    if a < b {
      DaysBeforeYearBounds(a + 1);
      DaysBeforeYearBounds(b);
    } else if b < a {
      DaysBeforeYearBounds(b + 1);
      DaysBeforeYearBounds(a);
    }
  }

  /** The month that day `r` of `year` (0-based, at or after the first of month `m`) falls in. */
  function MonthOfDayInYear(year: int, r: int, m: int): (month: int)
    requires 1 <= m <= 12 && DaysBeforeMonth(year, m) <= r < YearLength(year)
    ensures m <= month <= 12
    ensures DaysBeforeMonth(year, month) <= r < DaysBeforeMonth(year, month + 1)
    decreases 12 - m
  {
    if m == 12 || r < DaysBeforeMonth(year, m + 1) then m
    else MonthOfDayInYear(year, r, m + 1)
  }

  /** The year, month and day of epoch day `e` (what LocalDate.ofEpochDay computes). */
  function CivilOfDayNumber(e: int): (c: Ymd)
    ensures ValidYmd(c.year, c.month, c.day)
    ensures DayNumber(c) == e
  {
    var n := e + EpochOffset;
    var year := YearOfDayNumber(n);
    YearLengthIsGap(year);
    var r := n - DaysBeforeYear(year);
    var month := MonthOfDayInYear(year, r, 1);
    MonthLengthIsGap(year, month);
    Ymd(year, month, r - DaysBeforeMonth(year, month) + 1)
  }

  lemma DayOfYearBounds(c: Ymd)
    requires ValidYmd(c.year, c.month, c.day)
    ensures 0 <= DaysBeforeMonth(c.year, c.month) + c.day - 1 < YearLength(c.year)
  {
    MonthLengthIsGap(c.year, c.month);
    if c.month < 12 {
      MonthsAreOrdered(c.year, c.month + 1, 13);
    }
  }

  /** Two valid dates with the same epoch day are the same date. */
  lemma DayNumberInjective(a: Ymd, b: Ymd)
    requires ValidYmd(a.year, a.month, a.day) && ValidYmd(b.year, b.month, b.day)
    requires DayNumber(a) == DayNumber(b)
    ensures a == b
  {
    DayOfYearBounds(a);
    DayOfYearBounds(b);
    YearLengthIsGap(a.year);
    YearLengthIsGap(b.year);
    YearOfDayNumberUnique(a.year, b.year, DayNumber(a) + EpochOffset);
    MonthLengthIsGap(a.year, a.month);
    MonthLengthIsGap(a.year, b.month);
    if a.month < b.month {
      MonthsAreOrdered(a.year, a.month + 1, b.month + 1);
    } else if b.month < a.month {
      MonthsAreOrdered(a.year, b.month + 1, a.month + 1);
    }
  }

  /** A LocalDate, held as its epoch day (LocalDate.toEpochDay: 1970-01-01 is day 0). Equality and
      order of dates are those of their epoch days. */
  datatype Date = Date(epochDay: int)

  /** The year, month and day of a date. */
  function Civil(d: Date): (c: Ymd)
    ensures ValidYmd(c.year, c.month, c.day)
    ensures DayNumber(c) == d.epochDay
  {
    CivilOfDayNumber(d.epochDay)
  }

  /** LocalDate.getYear, getMonthValue and getDayOfMonth. */
  function Year(d: Date): int { Civil(d).year }
  function Month(d: Date): int { Civil(d).month }
  function DayOfMonth(d: Date): int { Civil(d).day }

  /** The fields of a date place it: its year is the one whose days contain it, its month the one
      of that year whose days contain it, and its day of the month counts from that month's first
      day. */
  lemma FieldsOfDate(d: Date)
    ensures DaysBeforeYear(Year(d)) - EpochOffset <= d.epochDay < DaysBeforeYear(Year(d) + 1) - EpochOffset
    ensures 1 <= Month(d) <= 12
    ensures DaysBeforeMonth(Year(d), Month(d)) <= d.epochDay + EpochOffset - DaysBeforeYear(Year(d))
            < DaysBeforeMonth(Year(d), Month(d) + 1)
    ensures 1 <= DayOfMonth(d) <= MonthLength(Year(d), Month(d))
    ensures d.epochDay == DaysBeforeYear(Year(d)) + DaysBeforeMonth(Year(d), Month(d)) + DayOfMonth(d) - 1 - EpochOffset
  {
    var c := Civil(d);
    DayOfYearBounds(c);
    YearLengthIsGap(c.year);
    MonthLengthIsGap(c.year, c.month);
  }

  /** LocalDate.of(year, month, day), for the arguments it accepts; it gives back exactly those
      fields. */
  function Of(year: int, month: int, day: int): (d: Date)
    requires ValidYmd(year, month, day)
    ensures Civil(d) == Ymd(year, month, day)
  {
    var d := Date(DayNumber(Ymd(year, month, day)));
    DayNumberInjective(Civil(d), Ymd(year, month, day));
    d
  }

  /** Every date is `LocalDate.of` its own year, month and day. */
  lemma OfCivil(d: Date)
    ensures Of(Year(d), Month(d), DayOfMonth(d)) == d
  {
  }

  /** Lexicographic order on (year, month, day), the order of LocalDate.compareTo. */
  predicate LexBefore(a: Ymd, b: Ymd) {
    a.year < b.year || (a.year == b.year && (a.month < b.month || (a.month == b.month && a.day < b.day)))
  }

  lemma LexBeforeIsEarlier(a: Ymd, b: Ymd)
    requires ValidYmd(a.year, a.month, a.day) && ValidYmd(b.year, b.month, b.day)
    requires LexBefore(a, b)
    ensures DayNumber(a) < DayNumber(b)
  {
    DayOfYearBounds(a);
    DayOfYearBounds(b);
    if a.year < b.year {
      YearLengthIsGap(a.year);
      DaysBeforeYearBounds(a.year + 1);
      DaysBeforeYearBounds(b.year);
      if a.year + 1 < b.year {
        assert DaysBeforeYear(a.year + 1) <= DaysBeforeYear(b.year);
      }
    } else if a.month < b.month {
      MonthLengthIsGap(a.year, a.month);
      if a.month + 1 < b.month {
        MonthsAreOrdered(a.year, a.month + 1, b.month);
      }
    }
  }

  /** `a < b` on LocalDate (`b > a`). */
  predicate Before(a: Date, b: Date) {
    a.epochDay < b.epochDay
  }

  /** Comparing epoch days orders dates exactly as LocalDate.compareTo compares their fields. */
  lemma BeforeIsLexicographic(a: Date, b: Date)
    ensures Before(a, b) <==> LexBefore(Civil(a), Civil(b))
  {
    if LexBefore(Civil(a), Civil(b)) {
      LexBeforeIsEarlier(Civil(a), Civil(b));
    } else if Civil(a) != Civil(b) {
      LexBeforeIsEarlier(Civil(b), Civil(a));
    }
  }

  /** Any date in a later year is later. */
  lemma LaterYearIsLater(a: Date, b: Date)
    requires Year(a) < Year(b)
    ensures Before(a, b)
  {
    LexBeforeIsEarlier(Civil(a), Civil(b));
  }

  /** Any date of a later month is later. */
  lemma LaterMonthIsLater(a: Date, b: Date)
    requires 12 * Year(a) + Month(a) < 12 * Year(b) + Month(b)
    ensures Before(a, b)
  {
    LexBeforeIsEarlier(Civil(a), Civil(b));
  }

  /** LocalDate.plusDays (minusDays(n) is plusDays(-n)). */
  function PlusDays(d: Date, n: int): (r: Date)
    ensures r.epochDay - d.epochDay == n
  {
    Date(d.epochDay + n)
  }

  function MinusDays(d: Date, n: int): (r: Date)
    ensures d.epochDay - r.epochDay == n
  {
    PlusDays(d, -n)
  }

  /** LocalDate.plusWeeks. */
  function PlusWeeks(d: Date, weeks: int): (r: Date)
    ensures r.epochDay - d.epochDay == 7 * weeks
  {
    PlusDays(d, 7 * weeks)
  }

  /** ChronoUnit.DAYS.between(from, to), also `from.until(to, DAYS)`: the days to add to `from` to
      reach `to`. */
  function DaysBetween(from: Date, to: Date): (n: int)
    ensures PlusDays(from, n) == to
  {
    to.epochDay - from.epochDay
  }

  /** Adding days inside one month only moves the day of the month. */
  lemma PlusDaysWithinMonth(d: Date, n: int)
    requires 1 <= DayOfMonth(d) + n <= MonthLength(Year(d), Month(d))
    ensures Civil(PlusDays(d, n)) == Ymd(Year(d), Month(d), DayOfMonth(d) + n)
  {
    var e := Of(Year(d), Month(d), DayOfMonth(d) + n);
    assert e == PlusDays(d, n);
  }

  /** ISO day of the week, 1 = Monday ... 7 = Sunday (java.time.DayOfWeek). */
  type Weekday = w: int | 1 <= w <= 7 witness 1

  /** LocalDate.getDayOfWeek: 1970-01-01 was a Thursday. */
  function DayOfWeek(d: Date): Weekday {
    (d.epochDay + 3) % 7 + 1
  }

  lemma ModSevenShift(x: int, n: int)
    ensures (x + n) % 7 == (x % 7 + n) % 7
  {
    var y := x % 7 + n;
    assert x + n == 7 * (x / 7 + y / 7) + y % 7;
  }

  /** Moving `n` days moves the day of the week `n` steps around the seven-day cycle. */
  lemma DayOfWeekAfter(d: Date, n: int)
    ensures DayOfWeek(PlusDays(d, n)) == (DayOfWeek(d) - 1 + n) % 7 + 1
  {
    ModSevenShift(d.epochDay + 3, n);
  }

  /** Whole weeks later (or earlier) the day of the week is the same. */
  lemma PlusWeeksKeepsWeekday(d: Date, weeks: int)
    ensures DayOfWeek(PlusWeeks(d, weeks)) == DayOfWeek(d)
  {
    var x := d.epochDay + 3;
    assert PlusWeeks(d, weeks).epochDay + 3 == x + 7 * weeks;
    assert x + 7 * weeks == 7 * (x / 7 + weeks) + x % 7;
  }

  /** TemporalAdjusters.nextOrSame(weekday): the first date on or after `d` that falls on `weekday`. */
  function NextOrSame(d: Date, weekday: Weekday): (r: Date)
    ensures DayOfWeek(r) == weekday
    ensures d.epochDay <= r.epochDay <= d.epochDay + 6
    ensures r == d <==> DayOfWeek(d) == weekday
  {
    var calDow := DayOfWeek(d);
    if calDow == weekday then d
    else
      var daysDiff := calDow - weekday;
      var shift := if daysDiff >= 0 then 7 - daysDiff else -daysDiff;
      var k := calDow - 1 + shift;
      assert k % 7 == weekday - 1 by {
        if daysDiff >= 0 { assert k == 7 * 1 + (weekday - 1); } else { assert k == 7 * 0 + (weekday - 1); }
      }
      DayOfWeekAfter(d, shift);
      PlusDays(d, shift)
  }

  function Min(a: int, b: int): int {
    if a <= b then a else b
  }

  /** LocalDate.plusMonths: move the month by `months`, keeping the day of the month and clamping it
      to the last day of the resulting month. */
  function PlusMonths(d: Date, months: int): (r: Date)
    ensures 12 * Year(r) + Month(r) == 12 * Year(d) + Month(d) + months
    ensures DayOfMonth(r) <= DayOfMonth(d)
    ensures DayOfMonth(r) == DayOfMonth(d) || DayOfMonth(r) == MonthLength(Year(r), Month(r))
  {
    var monthCount := 12 * Year(d) + (Month(d) - 1) + months;
    var year := monthCount / 12;
    var month := monthCount % 12 + 1;
    Of(year, month, Min(DayOfMonth(d), MonthLength(year, month)))
  }
}
