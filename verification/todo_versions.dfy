/** How the two to-do items relate: where their `displayToDo` and `nextDate` agree, and where the
    newer item's extra behaviour (the due-date fallback, the advance notice passed to XDays) shows. */
module ToDoVersions {
  import opened Calendar
  import opened Frequencies
  import opened ToDoFields
  import DomainToDo
  import ModelToDo

  /** The newer item with the same fields as an older one, shown in `area`. */
  function Promote(t: ModelToDo.ToDo, area: DomainToDo.DisplayArea): (u: DomainToDo.ToDo)
    ensures u.frequency == t.frequency && u.dateCompleted == t.dateCompleted
    ensures u.advanceNotice == t.advanceNotice && u.expireDays == t.expireDays
    ensures u.displayArea == area
  {
    DomainToDo.ToDo(t.id, t.description, t.frequency, t.month, t.weekday, t.monthday, t.year,
                    t.weekNumber, t.dateAdded, t.dateCompleted, t.expireDays, t.advanceNotice,
                    t.startDate, t.days, t.note, area)
  }

  /** With non-negative offsets the two `displayToDo` functions give the same answer on every input. */
  lemma DisplayVersionsAgree(nextDate: Date, advanceDays: int, expireDays: int, lastCompleted: Date,
                             referenceDate: Date)
    requires advanceDays >= 0 && expireDays >= 0
    ensures DomainToDo.DisplayToDo(nextDate, advanceDays, expireDays, lastCompleted, referenceDate)
         == ModelToDo.DisplayToDo(nextDate, advanceDays, expireDays, lastCompleted, referenceDate)
  {
    DomainToDo.FallbackUnreachable(nextDate, advanceDays, expireDays, lastCompleted, referenceDate);
  }

  /** With a negative grace period the window is empty; on the due date itself only the newer
      function shows the item, through its fallback. */
  lemma DisplayVersionsDifferOnEmptyWindow(nextDate: Date, lastCompleted: Date)
    ensures DomainToDo.DisplayToDo(nextDate, 0, -1, lastCompleted, nextDate)
    ensures !ModelToDo.DisplayToDo(nextDate, 0, -1, lastCompleted, nextDate)
  {
  }

  /** Outside XDays the two items compute the same due date, since no other rule reads the advance
      notice. */
  lemma NextDatesAgreeOutsideXDays(t: ModelToDo.ToDo, area: DomainToDo.DisplayArea, today: Date)
    requires ModelToDo.Schedulable(t, today) && t.frequency != "XDays"
    ensures DomainToDo.Schedulable(Promote(t, area), today)
    ensures DomainToDo.NextDate(Promote(t, area), today) == ModelToDo.NextDate(t, today)
  {
    var u := Promote(t, area);
    var f := ModelToDo.FrequencyType(t);
    assert DomainToDo.FrequencyType(u) == f;
    AdvanceOnlyAffectsXDays(f, t.advanceNotice, t.expireDays, Reference(t.dateCompleted, today));
  }

  /** Inside the advance-notice window of the next XDays occurrence, and still within the grace
      period of the previous one, the newer item is already due on the next occurrence while the
      older one stays on the previous. */
  lemma AdvanceNoticeAnnouncesXDaysEarlier(t: ModelToDo.ToDo, area: DomainToDo.DisplayArea, today: Date)
    requires t.frequency == "XDays" && t.days > 0
    requires var ref := Reference(t.dateCompleted, today);
      ref != t.startDate
      && XDaysFollowing(t.startDate, t.days, ref).epochDay - t.advanceNotice <= ref.epochDay
      && ref.epochDay < XDaysPrior(t.startDate, t.days, ref).epochDay + t.expireDays
    ensures ModelToDo.Schedulable(t, today) && DomainToDo.Schedulable(Promote(t, area), today)
    ensures var ref := Reference(t.dateCompleted, today);
      DomainToDo.NextDate(Promote(t, area), today) == XDaysFollowing(t.startDate, t.days, ref)
      && ModelToDo.NextDate(t, today) == XDaysPrior(t.startDate, t.days, ref)
      && DomainToDo.NextDate(Promote(t, area), today) != ModelToDo.NextDate(t, today)
  {
    var u := Promote(t, area);
    var ref := Reference(t.dateCompleted, today);
    assert ModelToDo.FrequencyType(t) == XDays(t.startDate, t.days);
    assert DomainToDo.FrequencyType(u) == XDays(t.startDate, t.days);
    var prior := XDaysPrior(t.startDate, t.days, ref);
    var next := XDaysFollowing(t.startDate, t.days, ref);
    if !Before(ref, t.startDate) {
      assert ref.epochDay < next.epochDay;
    } else {
      assert ref.epochDay <= prior.epochDay;
    }
  }
}
