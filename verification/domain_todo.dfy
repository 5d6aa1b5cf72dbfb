/** The newer to-do item (package `src.domain`): an immutable record whose due date, visibility and
    completion are derived from its fields, the recurrence rules and today's date. Today's date, read
    from the clock by the item, is a parameter here. */
module DomainToDo {
  import opened Calendar
  import opened Frequencies
  import opened ToDoFields

  datatype DisplayArea = Reminders | ToDos

  datatype ToDo = ToDo(
    id: int,
    description: string,
    frequency: string,
    month: int,
    weekday: int,
    monthday: int,
    year: int,
    weekNumber: int,
    dateAdded: Date,
    dateCompleted: Date,
    expireDays: int,
    advanceNotice: int,
    startDate: Date,
    days: int,
    note: string,
    displayArea: DisplayArea)

  /** `ToDo.default()`: a one-off item due today, never completed, shown on the to-do list. */
  function Default(today: Date): (t: ToDo)
    ensures t.frequency == "Once" && ValidYmd(t.year, t.month, t.monthday) && OnceDate(t) == today
    ensures t.dateCompleted == NoneDate && t.dateAdded == today && t.startDate == today
    ensures t.expireDays == 90 && t.advanceNotice == 0 && t.days == 1
    ensures t.weekday == 1 && t.weekNumber == 1 && t.id == -1 && t.displayArea == ToDos
  {
    OfCivil(today);
    ToDo(-1, "", "Once", Month(today), 1, DayOfMonth(today), Year(today), 1, today, NoneDate, 90, 0,
         today, 1, "", ToDos)
  }

  /** The item's weekday field is one `DayOfWeek.of` accepts wherever its tag reads it. */
  predicate WeekdayReadable(t: ToDo) {
    t.frequency == "Weekly" || t.frequency == "Irregular" ==> 1 <= t.weekday <= 7
  }

  /** `frequencyType`. */
  function FrequencyType(t: ToDo): (f: Frequency)
    requires WeekdayReadable(t)
    ensures f.Never? <==> t.frequency !in KnownTags
    ensures t.frequency in KnownTags ==> TagOf(f) == t.frequency
    ensures Stores(f, t.year, t.month, t.weekday, t.monthday, t.weekNumber, t.startDate, t.days)
  {
    FrequencyOf(t.frequency, t.year, t.month, t.weekday, t.monthday, t.weekNumber, t.startDate, t.days)
  }

  /** The inputs on which `nextDate` (and so `display`, `complete` and `daysUntil`) returns instead of
      throwing. */
  predicate Schedulable(t: ToDo, today: Date)
    ensures t.frequency == "Weekly" || t.frequency == "Irregular" ==> 1 <= t.weekday <= 7 || !Schedulable(t, today)
    ensures t.frequency == "Weekly" ==> (Schedulable(t, today) <==> 1 <= t.weekday <= 7)
    ensures t.frequency !in KnownTags || t.frequency == "Daily" ==> Schedulable(t, today)
    ensures t.frequency == "Monthly" && 1 <= t.monthday <= 28 ==> Schedulable(t, today)
  {
    WeekdayReadable(t) && Defined(FrequencyType(t), Reference(t.dateCompleted, today))
  }

  /** `onceDate`. */
  function OnceDate(t: ToDo): (d: Date)
    requires ValidYmd(t.year, t.month, t.monthday)
    ensures Civil(d) == Ymd(t.year, t.month, t.monthday)
  {
    Of(t.year, t.month, t.monthday)
  }

  /** `nextDate`: the rule's next date with the item's advance notice and grace period, counted from
      the later of the completion date and today. */
  function NextDate(t: ToDo, today: Date): (r: Date)
    requires Schedulable(t, today)
    ensures t.frequency !in KnownTags ==> r == Of(9999, 12, 31)
    ensures t.frequency == "Daily" ==> r == Reference(t.dateCompleted, today)
    ensures t.frequency == "Once" ==> ValidYmd(t.year, t.month, t.monthday) && r == OnceDate(t)
    ensures t.frequency == "Weekly" ==>
      DayOfWeek(r) == t.weekday && 0 <= DaysBetween(Reference(t.dateCompleted, today), r) <= 6
  {
    Frequencies.NextDate(FrequencyType(t), t.advanceNotice, t.expireDays, Reference(t.dateCompleted, today))
  }

  /** The top-level `displayToDo`: hidden while the last completion lies in the window
      [next - advanceDays, next + expireDays]; otherwise shown when the reference date lies in that
      window or is the due date itself. */
  function DisplayToDo(nextDate: Date, advanceDays: int, expireDays: int, lastCompleted: Date,
                       referenceDate: Date): (shown: bool)
    ensures InWindow(lastCompleted, nextDate, advanceDays, expireDays) ==> !shown
    ensures !InWindow(lastCompleted, nextDate, advanceDays, expireDays) ==>
      (shown <==> InWindow(referenceDate, nextDate, advanceDays, expireDays) || referenceDate == nextDate)
  {
    var advanceStart := MinusDays(nextDate, advanceDays);
    var expireEnd := PlusDays(nextDate, expireDays);
    var lastCompletedInCurrentWindow := !Before(lastCompleted, advanceStart) && !Before(expireEnd, lastCompleted);
    var referenceDateInCurrentWindow := !Before(referenceDate, advanceStart) && !Before(expireEnd, referenceDate);
    if lastCompletedInCurrentWindow then false
    else if referenceDateInCurrentWindow then true
    else if referenceDate == nextDate then true
    else false
  }

  /** With non-negative offsets the due date lies in its own window, so the `== nextDate` fallback
      never decides anything: the item is shown exactly when today is in the window and the last
      completion is not. */
  lemma FallbackUnreachable(nextDate: Date, advanceDays: int, expireDays: int, lastCompleted: Date,
                            referenceDate: Date)
    requires advanceDays >= 0 && expireDays >= 0
    ensures DisplayToDo(nextDate, advanceDays, expireDays, lastCompleted, referenceDate) <==>
      !InWindow(lastCompleted, nextDate, advanceDays, expireDays)
      && InWindow(referenceDate, nextDate, advanceDays, expireDays)
  {
  }

  /** `display`: `displayToDo` on the item's due date, offsets and last completion, as of today. An
      item is never shown while its last completion lies in the current window; with non-negative
      offsets it is shown exactly when today lies in that window and the completion does not. */
  function Display(t: ToDo, today: Date): (shown: bool)
    requires Schedulable(t, today)
    ensures shown ==> !InWindow(t.dateCompleted, NextDate(t, today), t.advanceNotice, t.expireDays)
    ensures t.advanceNotice >= 0 && t.expireDays >= 0 ==>
      (shown <==> !InWindow(t.dateCompleted, NextDate(t, today), t.advanceNotice, t.expireDays)
                  && InWindow(today, NextDate(t, today), t.advanceNotice, t.expireDays))
  {
    DisplayToDo(NextDate(t, today), t.advanceNotice, t.expireDays, t.dateCompleted, today)
  }

  /** `complete`: not shown, and completed at some time. A complete item is hidden, and an item that
      was never completed is never complete. */
  function Complete(t: ToDo, today: Date): (done: bool)
    requires Schedulable(t, today)
    ensures done ==> !Display(t, today)
    ensures t.dateCompleted == NoneDate ==> !done
  {
    !Display(t, today) && t.dateCompleted != NoneDate
  }

  /** An item completed today is hidden for the rest of today (and so complete) whenever its offsets
      are non-negative. */
  lemma CompletedTodayIsHidden(t: ToDo, today: Date)
    requires Schedulable(t, today)
    requires t.dateCompleted == today && t.advanceNotice >= 0 && t.expireDays >= 0
    ensures !Display(t, today)
    ensures today != NoneDate ==> Complete(t, today)
  {
    var next := NextDate(t, today);
    FallbackUnreachable(next, t.advanceNotice, t.expireDays, today, today);
  }

  /** `daysUntil`: the signed number of days from today to the due date. */
  function DaysUntil(t: ToDo, today: Date): (n: int)
    requires Schedulable(t, today)
    ensures PlusDays(today, n) == NextDate(t, today)
    ensures n == 0 <==> NextDate(t, today) == today
    ensures n < 0 <==> Before(NextDate(t, today), today)
  {
    DaysBetween(today, NextDate(t, today))
  }

  /** A daily item not completed in the future is due today. */
  lemma DailyDueToday(t: ToDo, today: Date)
    requires t.frequency == "Daily" && !Before(today, t.dateCompleted)
    ensures Schedulable(t, today) && DaysUntil(t, today) == 0
  {
  }

  /** A weekly item not completed in the future is due within the coming six days, on its weekday. */
  lemma WeeklyDueWithinAWeek(t: ToDo, today: Date)
    requires t.frequency == "Weekly" && 1 <= t.weekday <= 7 && !Before(today, t.dateCompleted)
    ensures Schedulable(t, today)
    ensures 0 <= DaysUntil(t, today) <= 6 && DayOfWeek(NextDate(t, today)) == t.weekday
  {
    assert Reference(t.dateCompleted, today) == today;
  }

  /** A new item is due today and shown today, and it is not complete. */
  lemma DefaultIsDueAndShown(today: Date)
    requires Before(NoneDate, today)
    ensures Schedulable(Default(today), today)
    ensures NextDate(Default(today), today) == today && DaysUntil(Default(today), today) == 0
    ensures Display(Default(today), today) && !Complete(Default(today), today)
  {
    var t := Default(today);
    assert Reference(t.dateCompleted, today) == today;
    assert ValidYmd(t.year, t.month, t.monthday);
  }
}
