/** The older to-do item (package `src.model`): the same record without a display area, whose due
    date ignores the advance notice and whose `displayToDo` has no due-date fallback. Today's date
    is a parameter. */
module ModelToDo {
  import opened Calendar
  import opened Frequencies
  import opened ToDoFields

  datatype ToDo = ToDo(
    id: int,
    description: string,
    frequency: string,
    month: int,
    weekday: int,
    monthday: int,
    year: int,
    weekNumber: int,
    dateAdded: Date,
    dateCompleted: Date,
    expireDays: int,
    advanceNotice: int,
    startDate: Date,
    days: int,
    note: string)

  /** `ToDo.default()`: a one-off item due today, never completed. */
  function Default(today: Date): (t: ToDo)
    ensures t.frequency == "Once" && ValidYmd(t.year, t.month, t.monthday) && OnceDate(t) == today
    ensures t.dateCompleted == NoneDate && t.dateAdded == today && t.startDate == today
    ensures t.expireDays == 90 && t.advanceNotice == 0 && t.days == 1
    ensures t.weekday == 1 && t.weekNumber == 1 && t.id == -1
  {
    OfCivil(today);
    ToDo(-1, "", "Once", Month(today), 1, DayOfMonth(today), Year(today), 1, today, NoneDate, 90, 0,
         today, 1, "")
  }

  /** The item's weekday field is one `DayOfWeek.of` accepts wherever its tag reads it. */
  predicate WeekdayReadable(t: ToDo) {
    t.frequency == "Weekly" || t.frequency == "Irregular" ==> 1 <= t.weekday <= 7
  }

  /** `frequencyType`: the same eight-tag dispatch as the newer item. */
  function FrequencyType(t: ToDo): (f: Frequency)
    requires WeekdayReadable(t)
    ensures f.Never? <==> t.frequency !in KnownTags
    ensures t.frequency in KnownTags ==> TagOf(f) == t.frequency
    ensures Stores(f, t.year, t.month, t.weekday, t.monthday, t.weekNumber, t.startDate, t.days)
  {
    FrequencyOf(t.frequency, t.year, t.month, t.weekday, t.monthday, t.weekNumber, t.startDate, t.days)
  }

  /** The inputs on which `nextDate` returns instead of throwing. */
  predicate Schedulable(t: ToDo, today: Date)
    ensures t.frequency == "Weekly" || t.frequency == "Irregular" ==> 1 <= t.weekday <= 7 || !Schedulable(t, today)
    ensures t.frequency == "Weekly" ==> (Schedulable(t, today) <==> 1 <= t.weekday <= 7)
    ensures t.frequency !in KnownTags || t.frequency == "Daily" ==> Schedulable(t, today)
    ensures t.frequency == "Monthly" && 1 <= t.monthday <= 28 ==> Schedulable(t, today)
  {
    WeekdayReadable(t) && Defined(FrequencyType(t), Reference(t.dateCompleted, today))
  }

  /** `onceDate`. */
  function OnceDate(t: ToDo): (d: Date)
    requires ValidYmd(t.year, t.month, t.monthday)
    ensures Civil(d) == Ymd(t.year, t.month, t.monthday)
  {
    Of(t.year, t.month, t.monthday)
  }

  /** `nextDate`: only the grace period is passed on, so the rule sees an advance notice of 0; the
      reference is the later of the completion date and today. */
  function NextDate(t: ToDo, today: Date): (r: Date)
    requires Schedulable(t, today)
    ensures t.frequency !in KnownTags ==> r == Of(9999, 12, 31)
    ensures t.frequency == "Daily" ==> r == Reference(t.dateCompleted, today)
    ensures t.frequency == "Once" ==> ValidYmd(t.year, t.month, t.monthday) && r == OnceDate(t)
  {
    Frequencies.NextDate(FrequencyType(t), 0, t.expireDays, Reference(t.dateCompleted, today))
  }

  /** An XDays item is always due on the latest occurrence on or before its reference date, however
      long its advance notice: it is never announced ahead of time. */
  lemma XDaysDueIsLatestOccurrence(t: ToDo, today: Date)
    requires t.frequency == "XDays" && t.days > 0
    requires !Before(Reference(t.dateCompleted, today), t.startDate)
    ensures Schedulable(t, today)
    ensures var ref, r := Reference(t.dateCompleted, today), NextDate(t, today);
      ref.epochDay - t.days < r.epochDay <= ref.epochDay
      && r.epochDay - t.startDate.epochDay == t.days * XDaysPeriods(t.startDate, t.days, ref)
  {
    var ref := Reference(t.dateCompleted, today);
    assert FrequencyType(t) == XDays(t.startDate, t.days);
    XDaysWithoutAdvanceIsLatestOccurrence(t.startDate, t.days, t.expireDays, ref);
  }

  /** The top-level `displayToDo`: hidden while the last completion lies in the window
      [next - advanceNotice, next + expireDays], otherwise shown exactly when the reference date
      lies in it. */
  function DisplayToDo(nextDate: Date, advanceNotice: int, expireDays: int, lastCompleted: Date,
                       referenceDate: Date): (shown: bool)
    ensures shown <==>
      !InWindow(lastCompleted, nextDate, advanceNotice, expireDays)
      && InWindow(referenceDate, nextDate, advanceNotice, expireDays)
  {
    if !Before(lastCompleted, MinusDays(nextDate, advanceNotice))
       && !Before(PlusDays(nextDate, expireDays), lastCompleted) then false
    else if !Before(referenceDate, MinusDays(nextDate, advanceNotice))
       && !Before(PlusDays(nextDate, expireDays), referenceDate) then true
    else false
  }

  /**
   * `display`. Shown iff the last completion lies outside and today inside the window around the
   * next due date; so never on the day it was completed, whatever its offsets.
   */
  function Display(t: ToDo, today: Date): (shown: bool)
    requires Schedulable(t, today)
    ensures shown <==>
              !InWindow(t.dateCompleted, NextDate(t, today), t.advanceNotice, t.expireDays)
              && InWindow(today, NextDate(t, today), t.advanceNotice, t.expireDays)
    ensures t.dateCompleted == today ==> !shown
  {
    DisplayToDo(NextDate(t, today), t.advanceNotice, t.expireDays, t.dateCompleted, today)
  }

  /** `complete`: not shown, and completed at some time. */
  function Complete(t: ToDo, today: Date): (done: bool)
    requires Schedulable(t, today)
    ensures done ==> !Display(t, today)
    ensures t.dateCompleted == NoneDate ==> !done
    ensures t.dateCompleted == today && today != NoneDate ==> done
  {
    !Display(t, today) && t.dateCompleted != NoneDate
  }

  /** `daysUntil`: the signed number of days from today to the due date. */
  function DaysUntil(t: ToDo, today: Date): (n: int)
    requires Schedulable(t, today)
    ensures PlusDays(today, n) == NextDate(t, today)
    ensures n == 0 <==> NextDate(t, today) == today
    ensures n < 0 <==> Before(NextDate(t, today), today)
  {
    DaysBetween(today, NextDate(t, today))
  }

  /** The advance notice never changes the due date. */
  lemma AdvanceNoticeIgnored(t: ToDo, today: Date, advanceNotice: int)
    requires Schedulable(t, today)
    ensures Schedulable(t.(advanceNotice := advanceNotice), today)
    ensures NextDate(t.(advanceNotice := advanceNotice), today) == NextDate(t, today)
  {
    assert FrequencyType(t.(advanceNotice := advanceNotice)) == FrequencyType(t);
  }

  /** A new item is due today and shown today, and it is not complete. */
  lemma DefaultIsDueAndShown(today: Date)
    requires Before(NoneDate, today)
    ensures Schedulable(Default(today), today)
    ensures NextDate(Default(today), today) == today && DaysUntil(Default(today), today) == 0
    ensures Display(Default(today), today) && !Complete(Default(today), today)
  {
    var t := Default(today);
    assert Reference(t.dateCompleted, today) == today;
    assert ValidYmd(t.year, t.month, t.monthday);
  }
}
