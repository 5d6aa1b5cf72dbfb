/** The recurrence rules: one next-occurrence rule per kind of frequency, each mapping a reference
    date and the item's advance-notice and grace ("expire") day counts to the next due date. */
module Frequencies {
  import opened IntOps
  import opened Calendar

  datatype Option<T> = None | Some(value: T)

  /** The closed family of recurrence kinds and the parameters each one keeps. */
  datatype Frequency =
    | Never
    | Daily
    | Once(year: int, month: int, monthday: int)
    | Weekly(weekday: Weekday)
    | Monthly(monthday: int)
    | Yearly(monthValue: int, dayOfMonth: int)
    | XDays(startDate: Date, days: int)
    | Irregular(monthValue: int, weekNumber: int, weekday: Weekday)
    | Easter

  /** The date a `Never` item is due on. */
  const NeverDate: Date := Of(9999, 12, 31)

  /** No date up to the year 9999 lies after the date of a `Never` item. */
  lemma NeverDateIsLast(d: Date)
    requires Year(d) <= 9999
    ensures !Before(NeverDate, d)
  {
    BeforeIsLexicographic(NeverDate, d);
  }

  // ----- Monthly and Yearly -----

  /** `nextMonthDay`: this month's occurrence while the reference is within its grace period,
      otherwise the occurrence one month later (clamped to the end of that month). */
  function NextMonthDay(ref: Date, dayOfMonth: int, expireDays: int): (r: Date)
    requires ValidYmd(Year(ref), Month(ref), dayOfMonth)
    ensures var thisMonth := Of(Year(ref), Month(ref), dayOfMonth);
      r == thisMonth <==> ref.epochDay <= thisMonth.epochDay + expireDays
    ensures r != Of(Year(ref), Month(ref), dayOfMonth) ==>
      12 * Year(r) + Month(r) == 12 * Year(ref) + Month(ref) + 1
      && DayOfMonth(r) == Min(dayOfMonth, MonthLength(Year(r), Month(r)))
      && Before(ref, r)
    ensures expireDays >= 0 ==> ref.epochDay <= r.epochDay + expireDays
  {
    var thisMonth := Of(Year(ref), Month(ref), dayOfMonth);
    var nextMonth := PlusMonths(thisMonth, 1);
    LaterMonthIsLater(ref, nextMonth);
    if !Before(PlusDays(thisMonth, expireDays), ref) then thisMonth else nextMonth
  }

  /** `nextYearDay`: this year's month/day while the reference is within its grace period,
      otherwise the same month/day of the following year. Both dates are built before the choice. */
  function NextYearDay(ref: Date, monthValue: int, dayOfMonth: int, expireDays: int): (r: Date)
    requires ValidYmd(Year(ref), monthValue, dayOfMonth)
    requires ValidYmd(Year(ref) + 1, monthValue, dayOfMonth)
    ensures Month(r) == monthValue && DayOfMonth(r) == dayOfMonth
    ensures Year(r) == Year(ref) <==> ref.epochDay <= Of(Year(ref), monthValue, dayOfMonth).epochDay + expireDays
    ensures Year(r) != Year(ref) ==> Year(r) == Year(ref) + 1 && Before(ref, r)
    ensures expireDays >= 0 ==> ref.epochDay <= r.epochDay + expireDays
  {
    var thisYear := Of(Year(ref), monthValue, dayOfMonth);
    var nextYear := Of(Year(ref) + 1, monthValue, dayOfMonth);
    LaterYearIsLater(ref, nextYear);
    if !Before(PlusDays(thisYear, expireDays), ref) then thisYear else nextYear
  }

  /** Two consecutive years are never both leap years, so no year has February 29 in it and in the
      year after. */
  lemma NoConsecutiveLeapDays(year: int)
    ensures !(ValidYmd(year, 2, 29) && ValidYmd(year + 1, 2, 29))
  {
    if IsLeapYear(year) {
      assert year % 4 == 0;
      assert (year + 1) % 4 == 1;
    }
  }

  /** No reference date lets a yearly rule on February 29 through: the rule builds the date in the
      reference year and in the next one. */
  lemma YearlyFebruary29NeverDefined(ref: Date)
    ensures !Defined(Yearly(2, 29), ref)
  {
    NoConsecutiveLeapDays(Year(ref));
  }

  // ----- Every X days -----

  /** Whole periods between the start date and the reference, truncated toward zero. */
  function XDaysPeriods(start: Date, days: int, ref: Date): int
    requires days != 0
  {
    Quot(DaysBetween(start, ref), days)
  }

  /** `prior`: the reference moved back by the truncated remainder of its distance from the start. */
  function XDaysPrior(start: Date, days: int, ref: Date): (prior: Date)
    requires days != 0
    ensures prior.epochDay - start.epochDay == days * XDaysPeriods(start, days, ref)
    ensures days > 0 && !Before(ref, start) ==> ref.epochDay - days < prior.epochDay <= ref.epochDay
    ensures days > 0 && Before(ref, start) ==> ref.epochDay <= prior.epochDay < ref.epochDay + days
    ensures ref == start ==> prior == start
  {
    MinusDays(ref, Rem(DaysBetween(start, ref), days))
  }

  /** `next`: one period after `prior`. */
  function XDaysFollowing(start: Date, days: int, ref: Date): (next: Date)
    requires days != 0
    ensures next.epochDay == XDaysPrior(start, days, ref).epochDay + days
    ensures next.epochDay - start.epochDay == days * (XDaysPeriods(start, days, ref) + 1)
  {
    PlusDays(ref, days - Rem(DaysBetween(start, ref), days))
  }

  /** XDays.nextDate: the start date on the start date itself; otherwise `prior` until `next`'s
      advance-notice window opens, then `next` while `prior`'s grace period lasts, then `prior`. */
  function XDaysNext(start: Date, days: int, advanceDays: int, expireDays: int, ref: Date): (r: Date)
    requires days != 0
    ensures r == XDaysPrior(start, days, ref) || r == XDaysFollowing(start, days, ref)
    ensures ref == start ==> r == start
    ensures r == XDaysFollowing(start, days, ref) <==>
      ref != start
      && XDaysFollowing(start, days, ref).epochDay - advanceDays <= ref.epochDay
      && ref.epochDay < XDaysPrior(start, days, ref).epochDay + expireDays
    ensures days > 0 && advanceDays <= 0 ==> r == XDaysPrior(start, days, ref)
  {
    var prior := XDaysPrior(start, days, ref);
    var next := XDaysFollowing(start, days, ref);
    if ref == start then start
    else if Before(ref, MinusDays(next, advanceDays)) then prior
    else if Before(ref, PlusDays(prior, expireDays)) then next
    else prior
  }

  // ----- Nth weekday of a month -----

  /** The `week`-th `weekday` of `month` in `year`: the first such weekday of the month, moved on by
      `week - 1` weeks. */
  function XWeek(year: int, month: int, weekday: Weekday, week: int): (d: Date)
    requires 1 <= month <= 12
    ensures DayOfWeek(d) == weekday
    ensures var first := Of(year, month, 1).epochDay + 7 * (week - 1);
      first <= d.epochDay <= first + 6
  {
    var firstWeekday := NextOrSame(Of(year, month, 1), weekday);
    PlusWeeksKeepsWeekday(firstWeekday, week - 1);
    PlusWeeks(firstWeekday, week - 1)
  }

  /** For weeks 1 to 4 the occurrence stays inside the month, in the `week`-th block of seven days. */
  lemma XWeekInMonth(year: int, month: int, weekday: Weekday, week: int)
    requires 1 <= month <= 12 && 1 <= week <= 4
    ensures var d := XWeek(year, month, weekday, week);
      Year(d) == year && Month(d) == month && 7 * (week - 1) + 1 <= DayOfMonth(d) <= 7 * week
  {
    var first := Of(year, month, 1);
    var d := XWeek(year, month, weekday, week);
    var shift := d.epochDay - first.epochDay;
    PlusDaysWithinMonth(first, shift);
    assert PlusDays(first, shift) == d;
  }

  /** `nextXWeekdayOfMonth`: this year's occurrence if it is strictly after the reference,
      otherwise next year's. */
  function NextXWeekdayOfMonth(ref: Date, month: int, weekday: Weekday, week: int): (r: Date)
    requires 1 <= month <= 12
    ensures DayOfWeek(r) == weekday
    ensures r == XWeek(Year(ref), month, weekday, week) <==> Before(ref, XWeek(Year(ref), month, weekday, week))
    ensures r != XWeek(Year(ref), month, weekday, week) ==> r == XWeek(Year(ref) + 1, month, weekday, week)
    ensures week >= 1 ==> Before(ref, r)
  {
    var thisYear := XWeek(Year(ref), month, weekday, week);
    var nextYear := XWeek(Year(ref) + 1, month, weekday, week);
    LaterYearIsLater(ref, Of(Year(ref) + 1, month, 1));
    if Before(ref, thisYear) then thisYear else nextYear
  }

  /** A date that is the `week`-th `weekday` of `month` in `year` or in the year after lies in that
      month of one of the two years. */
  lemma XWeekOfEitherYearInMonth(year: int, month: int, weekday: Weekday, week: int, d: Date)
    requires 1 <= month <= 12 && 1 <= week <= 4
    requires d == XWeek(year, month, weekday, week) || d == XWeek(year + 1, month, weekday, week)
    ensures (Year(d) == year || Year(d) == year + 1)
      && Month(d) == month && 7 * (week - 1) + 1 <= DayOfMonth(d) <= 7 * week
  {
    XWeekInMonth(year, month, weekday, week);
    XWeekInMonth(year + 1, month, weekday, week);
  }

  /** For weeks 1 to 4 the Nth-weekday rule lands in the target month of the reference year or the
      next one, in the `week`-th block of seven days of that month. */
  lemma NextXWeekdayOfMonthInMonth(ref: Date, month: int, weekday: Weekday, week: int)
    requires 1 <= month <= 12 && 1 <= week <= 4
    ensures var r := NextXWeekdayOfMonth(ref, month, weekday, week);
      (Year(r) == Year(ref) || Year(r) == Year(ref) + 1)
      && Month(r) == month && 7 * (week - 1) + 1 <= DayOfMonth(r) <= 7 * week
  {
    var y := Year(ref);
    var r := NextXWeekdayOfMonth(ref, month, weekday, week);
    var thisYear, nextYear := XWeek(y, month, weekday, week), XWeek(y + 1, month, weekday, week);
    assert r == thisYear || r == nextYear;
    XWeekOfEitherYearInMonth(y, month, weekday, week, r);
  }

  // ----- Easter -----

  /** The first half of the anonymous Gregorian computus (Meeus/Jones/Butcher), with Kotlin's
      truncating `/` and `%`: `h`, the epact-like position of the paschal full moon. */
  function ComputusH(year: int): (h: int)
    ensures year >= 0 ==> 0 <= h <= 29
  {
    var a := Rem(year, 19);
    var b := Quot(year, 100);
    var d := Quot(b, 4);
    var f := Quot(b + 8, 25);
    var g := Quot(b - f + 1, 3);
    assert year >= 0 ==> 0 <= a && 0 <= b - d - g by {
      if year >= 0 {
        assert 0 <= f <= b + 1;
        assert 3 * g <= b - f + 1 && 4 * d <= b;
      }
    }
    Rem(19 * a + b - d - g + 15, 30)
  }

  /** The second step: `l`, the days from the paschal full moon to the following Sunday, less one. */
  function ComputusL(year: int): (l: int)
    ensures year >= 0 ==> 0 <= l <= 6
  {
    var b := Quot(year, 100);
    var c := Rem(year, 100);
    var e := Rem(b, 4);
    var i := Quot(c, 4);
    var k := Rem(c, 4);
    var h := ComputusH(year);
    assert year >= 0 ==> 0 <= e && 0 <= i && k <= 3 by {
      if year >= 0 {
        assert 0 <= c <= 99;
      }
    }
    Rem(32 + 2 * e + 2 * i - h - k, 7)
  }

  /** `calculateEaster`'s (month, day): the last step, with `m` correcting the dates past April 25.
      For every year from 0 on it lands between March 22 and April 25. */
  function EasterMonthDay(year: int): (md: (int, int))
    ensures year >= 0 ==> (md.0 == 3 && 22 <= md.1 <= 31) || (md.0 == 4 && 1 <= md.1 <= 25)
  {
    var a := Rem(year, 19);
    var h := ComputusH(year);
    var l := ComputusL(year);
    var m := Quot(a + 11 * h + 22 * l, 451);
    var s := h + l - 7 * m + 114;
    assert year >= 0 ==> 114 <= s <= 148 && Quot(s, 31) == s / 31 && Rem(s, 31) == s % 31 by {
      if year >= 0 {
        ComputusTail(a, h, l);
        RemOfNatural(s, 31);
      }
    }
    (Quot(s, 31), Rem(s, 31) + 1)
  }

  /** `LocalDate.of` accepts the computed month and day. */
  predicate EasterDefined(year: int) {
    ValidYmd(year, EasterMonthDay(year).0, EasterMonthDay(year).1)
  }

  /** The last three steps of the computus, for every `a` (golden number), `h` (epact) and `l`
      (weekday correction) in range: the result lies between March 22 and April 25. */
  lemma ComputusTail(a: int, h: int, l: int)
    requires 0 <= a <= 18 && 0 <= h <= 29 && 0 <= l <= 6
    ensures var m := (a + 11 * h + 22 * l) / 451;
      114 <= h + l - 7 * m + 114 <= 148
  {
    var m := (a + 11 * h + 22 * l) / 451;
    assert m == 0 || m == 1;
    assert m == 1 ==> h >= 28 && l == 6;
    assert m == 0 ==> h + l <= 34;
  }

  /** From the year 0 on, `LocalDate.of` accepts the computus' month and day in this year and the
      next. */
  lemma EasterDefinedFromYearZero(year: int)
    ensures year >= 0 ==> EasterDefined(year) && EasterDefined(year + 1)
  {
    var md, next := EasterMonthDay(year), EasterMonthDay(year + 1);
  }

  /** For every year from 0 on, `LocalDate.of` accepts the computed month and day, and Easter falls
      between March 22 and April 25 of that year. */
  lemma EasterWindow(year: int)
    requires year >= 0
    ensures EasterDefined(year)
    ensures !Before(CalculateEaster(year), Of(year, 3, 22)) && !Before(Of(year, 4, 25), CalculateEaster(year))
  {
    var easter := CalculateEaster(year);
    BeforeIsLexicographic(easter, Of(year, 3, 22));
    BeforeIsLexicographic(Of(year, 4, 25), easter);
  }

  /** `Easter.calculateEaster`. */
  function CalculateEaster(year: int): (d: Date)
    requires EasterDefined(year)
    ensures Civil(d) == Ymd(year, EasterMonthDay(year).0, EasterMonthDay(year).1)
  {
    Of(year, EasterMonthDay(year).0, EasterMonthDay(year).1)
  }

  /** Easter.nextDate: this year's Easter while the reference is within its grace period, else next
      year's. */
  function EasterNext(ref: Date, expireDays: int): (r: Date)
    requires EasterDefined(Year(ref)) && EasterDefined(Year(ref) + 1)
    ensures r == CalculateEaster(Year(ref)) <==> ref.epochDay <= CalculateEaster(Year(ref)).epochDay + expireDays
    ensures r != CalculateEaster(Year(ref)) ==> r == CalculateEaster(Year(ref) + 1) && Before(ref, r)
    ensures expireDays >= 0 ==> ref.epochDay <= r.epochDay + expireDays
  {
    var easterCurrentYear := CalculateEaster(Year(ref));
    var easterNextYear := CalculateEaster(Year(ref) + 1);
    LaterYearIsLater(ref, easterNextYear);
    if !Before(PlusDays(easterCurrentYear, expireDays), ref) then easterCurrentYear else easterNextYear
  }

  // ----- Dispatch -----

  /** The inputs on which `nextDate` returns instead of throwing: `LocalDate.of` must accept every date
      the rule builds, and XDays divides by its interval. */
  predicate Defined(f: Frequency, ref: Date)
    ensures f.Never? || f.Daily? || f.Weekly? ==> Defined(f, ref)
    ensures f.Monthly? && 1 <= f.monthday <= 28 ==> Defined(f, ref)
    ensures f.Easter? && Year(ref) >= 0 ==> Defined(f, ref)
  {
    match f
    case Once(y, m, d) => ValidYmd(y, m, d)
    case Monthly(d) => ValidYmd(Year(ref), Month(ref), d)
    case Yearly(m, d) => ValidYmd(Year(ref), m, d) && ValidYmd(Year(ref) + 1, m, d)
    case XDays(_, days) => days != 0
    case Irregular(m, _, _) => 1 <= m <= 12
    case Easter =>
      var y := Year(ref);
      EasterDefinedFromYearZero(y);
      EasterDefined(y) && EasterDefined(y + 1)
    case _ => true
  }

  /** Frequency.nextDate(advanceDays, expireDays, referenceDate). */
  function NextDate(f: Frequency, advanceDays: int, expireDays: int, ref: Date): (r: Date)
    requires Defined(f, ref)
    ensures f.Weekly? ==> !Before(r, ref) && r.epochDay <= ref.epochDay + 6 && DayOfWeek(r) == f.weekday
    ensures expireDays >= 0 && (f.Daily? || f.Weekly? || f.Monthly? || f.Yearly? || f.Easter?) ==>
      ref.epochDay <= r.epochDay + expireDays
    ensures f.Irregular? && f.weekNumber >= 1 ==> Before(ref, r)
  {
    match f
    case Never => NeverDate
    case Daily => ref
    case Once(y, m, d) => Of(y, m, d)
    case Weekly(w) => NextOrSame(ref, w)
    case Monthly(d) => NextMonthDay(ref, d, expireDays)
    case Yearly(m, d) => NextYearDay(ref, m, d, expireDays)
    case XDays(start, days) => XDaysNext(start, days, advanceDays, expireDays, ref)
    case Irregular(m, week, w) => NextXWeekdayOfMonth(ref, m, w, week)
    case Easter => EasterNext(ref, expireDays)
  }

  /** Never, Daily and Once ignore both day counts: the sentinel, the reference itself, the stored date. */
  lemma FixedRules(advanceDays: int, expireDays: int, ref: Date, y: int, m: int, d: int)
    requires ValidYmd(y, m, d)
    ensures NextDate(Never, advanceDays, expireDays, ref) == Of(9999, 12, 31)
    ensures NextDate(Daily, advanceDays, expireDays, ref) == ref
    ensures NextDate(Once(y, m, d), advanceDays, expireDays, ref) == Of(y, m, d)
  {
  }

  /** Only the XDays rule reads the advance-notice count. */
  lemma AdvanceOnlyAffectsXDays(f: Frequency, advanceDays: int, expireDays: int, ref: Date)
    requires Defined(f, ref) && !f.XDays?
    ensures NextDate(f, advanceDays, expireDays, ref) == NextDate(f, 0, expireDays, ref)
  {
  }

  /** Weekly returns the reference itself exactly when it already falls on the weekday. */
  lemma WeeklySameDay(w: Weekday, advanceDays: int, expireDays: int, ref: Date)
    ensures NextDate(Weekly(w), advanceDays, expireDays, ref) == ref <==> DayOfWeek(ref) == w
  {
  }

  /** With no advance notice and a positive interval, XDays always picks `prior`: from the start date
      on, that is the latest occurrence on or before the reference. */
  lemma XDaysWithoutAdvanceIsLatestOccurrence(start: Date, days: int, expireDays: int, ref: Date)
    requires days > 0 && !Before(ref, start)
    ensures var r := NextDate(XDays(start, days), 0, expireDays, ref);
      ref.epochDay - days < r.epochDay <= ref.epochDay
      && r.epochDay - start.epochDay == days * XDaysPeriods(start, days, ref)
  {
  }

  /** Once the reference is past `prior`'s grace period, XDays keeps returning `prior` even inside the
      advance-notice window of `next`. */
  lemma XDaysAfterGraceKeepsPrior(start: Date, days: int, advanceDays: int, expireDays: int, ref: Date)
    requires days != 0 && ref != start
    requires XDaysPrior(start, days, ref).epochDay + expireDays <= ref.epochDay
    ensures XDaysNext(start, days, advanceDays, expireDays, ref) == XDaysPrior(start, days, ref)
  {
  }

  /** `getWeekdayByName`: the seven English day names map to 1..7; any other string throws (None). */
  function GetWeekdayByName(weekdayName: string): (r: Option<Weekday>)
    ensures r.None? <==> weekdayName !in {"Monday", "Tuesday", "Wednesday", "Thursday", "Friday", "Saturday", "Sunday"}
  {
    match weekdayName
    case "Monday" => Some(1)
    case "Tuesday" => Some(2)
    case "Wednesday" => Some(3)
    case "Thursday" => Some(4)
    case "Friday" => Some(5)
    case "Saturday" => Some(6)
    case "Sunday" => Some(7)
    case _ => None
  }
}
