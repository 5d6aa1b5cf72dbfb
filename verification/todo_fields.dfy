/** What the two `ToDo` data classes share: the completion sentinel, the weekday names, the
    inclusive display window and the dispatch from an item's string tag and stored fields to a
    recurrence rule. Both classes spell these out identically. */
module ToDoFields {
  import opened Calendar
  import opened Frequencies

  /** `NONE_DATE`: the completion date of an item that was never completed. */
  const NoneDate: Date := Of(1970, 1, 1)

  /** `NONE_DATE` is the first day of the epoch, a Thursday. */
  lemma NoneDateIsEpoch()
    ensures NoneDate == Date(0) && DayOfWeek(NoneDate) == 4
  {
    assert DaysBeforeYear(1970) == EpochOffset;
    assert DayNumber(Ymd(1970, 1, 1)) == 0;
    assert Civil(NoneDate) == Ymd(1970, 1, 1);
  }

  /** The tags `frequencyType` recognises; any other tag means Never. */
  const KnownTags: set<string> :=
    {"Once", "Daily", "Weekly", "Monthly", "Yearly", "Irregular", "Easter", "XDays"}

  /** `weekdayName`: the English name of ISO weekday 1..7, "NA" for any other number. Reading the
      name back with `getWeekdayByName` gives the number, or fails exactly when it was out of range. */
  function WeekdayName(weekday: int): (name: string)
    ensures GetWeekdayByName(name) == if 1 <= weekday <= 7 then Some(weekday) else None
  {
    if weekday == 1 then "Monday"
    else if weekday == 2 then "Tuesday"
    else if weekday == 3 then "Wednesday"
    else if weekday == 4 then "Thursday"
    else if weekday == 5 then "Friday"
    else if weekday == 6 then "Saturday"
    else if weekday == 7 then "Sunday"
    else "NA"
  }

  /** Every day name `getWeekdayByName` accepts is the `weekdayName` of the number it gives. */
  lemma WeekdayNameRoundTrip(name: string)
    requires GetWeekdayByName(name).Some?
    ensures WeekdayName(GetWeekdayByName(name).value) == name
  {
    var n := GetWeekdayByName(name).value;
    assert GetWeekdayByName(WeekdayName(n)) == Some(n);
    assert name in {"Monday", "Tuesday", "Wednesday", "Thursday", "Friday", "Saturday", "Sunday"};
  }

  /** The tag an item of the given kind is saved with. */
  function TagOf(f: Frequency): string {
    match f
    case Never => "Never"
    case Daily => "Daily"
    case Once(_, _, _) => "Once"
    case Weekly(_) => "Weekly"
    case Monthly(_) => "Monthly"
    case Yearly(_, _) => "Yearly"
    case XDays(_, _) => "XDays"
    case Irregular(_, _, _) => "Irregular"
    case Easter => "Easter"
  }

  /** The item's fields hold the parameters of `f`; the fields `f` does not use are free. */
  predicate Stores(f: Frequency, year: int, month: int, weekday: int, monthday: int, weekNumber: int,
                   startDate: Date, days: int)
  {
    match f
    case Once(y, m, d) => year == y && month == m && monthday == d
    case Weekly(w) => weekday == w
    case Monthly(d) => monthday == d
    case Yearly(m, d) => month == m && monthday == d
    case XDays(s, n) => startDate == s && days == n
    case Irregular(m, n, w) => month == m && weekNumber == n && weekday == w
    case _ => true
  }

  /** `frequencyType`: the rule the tag names, with its parameters taken from the matching fields.
      `DayOfWeek.of` throws unless the weekday field is 1..7, which only the Weekly and Irregular
      tags read. */
  function FrequencyOf(tag: string, year: int, month: int, weekday: int, monthday: int, weekNumber: int,
                       startDate: Date, days: int): (f: Frequency)
    requires tag == "Weekly" || tag == "Irregular" ==> 1 <= weekday <= 7
    ensures f.Never? <==> tag !in KnownTags
    ensures tag in KnownTags ==> TagOf(f) == tag
    ensures Stores(f, year, month, weekday, monthday, weekNumber, startDate, days)
  {
    if tag == "Once" then Once(year, month, monthday)
    else if tag == "Daily" then Daily
    else if tag == "Weekly" then Weekly(weekday)
    else if tag == "Monthly" then Monthly(monthday)
    else if tag == "Yearly" then Yearly(month, monthday)
    else if tag == "Irregular" then Irregular(month, weekNumber, weekday)
    else if tag == "Easter" then Easter
    else if tag == "XDays" then XDays(startDate, days)
    else Never
  }

  /** Saving any rule as its tag and its parameters and dispatching again gives the same rule back:
      the dispatch loses nothing. */
  lemma DispatchRoundTrip(f: Frequency, year: int, month: int, weekday: int, monthday: int,
                          weekNumber: int, startDate: Date, days: int)
    requires Stores(f, year, month, weekday, monthday, weekNumber, startDate, days)
    ensures FrequencyOf(TagOf(f), year, month, weekday, monthday, weekNumber, startDate, days) == f
  {
    assert "Never" !in KnownTags;
  }

  /** `d` lies in the inclusive window [next - advanceDays, next + expireDays]. */
  predicate InWindow(d: Date, next: Date, advanceDays: int, expireDays: int)
    ensures InWindow(d, next, advanceDays, expireDays) <==>
      !Before(d, MinusDays(next, advanceDays)) && !Before(PlusDays(next, expireDays), d)
    ensures InWindow(d, next, advanceDays, expireDays) ==> advanceDays + expireDays >= 0
  {
    next.epochDay - advanceDays <= d.epochDay <= next.epochDay + expireDays
  }

  /** `NONE_DATE` precedes every date of a later year, so from then on an item that was never
      completed is scheduled from today. */
  lemma NeverCompletedIsScheduledFromToday(today: Date)
    requires Year(today) > 1970
    ensures Before(NoneDate, today) && Reference(NoneDate, today) == today
  {
    assert Year(NoneDate) == 1970;
    LaterYearIsLater(NoneDate, today);
  }

  /** The reference date `nextDate` uses: the completion date if it is today or later, else today. */
  function Reference(dateCompleted: Date, today: Date): (r: Date)
    ensures !Before(r, today) && !Before(r, dateCompleted)
    ensures r == today || r == dateCompleted
  {
    if !Before(dateCompleted, today) then dateCompleted else today
  }
}
