/** The fixed points the repository's tests check, proved of the model: next dates of every rule from
    2010-01-01, the XDays cases, and the display decisions of both `displayToDo` functions. */
module TestVectors {
  import opened IntOps
  import opened Calendar
  import opened Frequencies
  import DomainToDo
  import ModelToDo

  /** The epoch days of the dates the tests use. */
  lemma TestDates()
    ensures Of(2009, 1, 1) == Date(14245)
    ensures Of(2009, 12, 1) == Date(14579)
    ensures Of(2009, 12, 30) == Date(14608)
    ensures Of(2009, 12, 31) == Date(14609)
    ensures Of(2010, 1, 1) == Date(14610)
    ensures Of(2010, 4, 4) == Date(14703)
  {
  }

  /** 2010-01-01 (epoch day 14610, see `TestDates`) was a Friday. */
  lemma NewYear2010IsFriday()
    ensures DayOfWeek(Date(14610)) == 5
  {
  }

  /** Never, Daily, Once, Weekly, Monthly and Yearly from 2010-01-01, with no advance notice and no
      grace period. */
  lemma SimpleRulesFromNewYear2010()
    ensures var ref := Of(2010, 1, 1);
      NextDate(Daily, 0, 0, ref) == Of(2010, 1, 1)
      && NextDate(Weekly(1), 0, 0, ref) == Of(2010, 1, 4)
      && NextDate(Never, 0, 0, ref) == Of(9999, 12, 31)
      && Defined(Monthly(31), ref) && NextDate(Monthly(31), 0, 0, ref) == Of(2010, 1, 31)
      && Defined(Yearly(3, 31), ref) && NextDate(Yearly(3, 31), 0, 0, ref) == Of(2010, 3, 31)
      && NextDate(Once(2010, 1, 31), 0, 0, ref) == Of(2010, 1, 31)
  {
    var ref := Of(2010, 1, 1);
    TestDates();
    NewYear2010IsFriday();
    assert NextOrSame(ref, 1) == PlusDays(ref, 3);
  }

  /** Thanksgiving, the fourth Thursday of November, from 2010-01-01. */
  lemma Thanksgiving2010()
    ensures NextDate(Irregular(11, 4, 4), 0, 0, Of(2010, 1, 1)) == Of(2010, 11, 25)
  {
    var first := Of(2010, 11, 1);
    assert first == Date(14914);
    assert DayOfWeek(first) == 1;
    assert NextOrSame(first, 4) == PlusDays(first, 3);
    assert XWeek(2010, 11, 4, 4) == Of(2010, 11, 25);
  }

  /** The computus for 2010, step by step: Easter fell on April 4. */
  lemma Easter2010()
    ensures EasterMonthDay(2010) == (4, 4)
  {
    RemOfNatural(2010, 19);
    RemOfNatural(2010, 100);
    RemOfNatural(20, 4);
    RemOfNatural(10, 4);
    assert Rem(2010, 19) == 15 && Quot(2010, 100) == 20 && Rem(2010, 100) == 10;
    assert ComputusH(2010) == 9 by {
      RemOfNatural(309, 30);
    }
    assert ComputusL(2010) == 4 by {
      RemOfNatural(25, 7);
    }
    RemOfNatural(127, 31);
  }

  /** From 2010-01-01 the next Easter is that of 2010. */
  lemma EasterFromNewYear2010()
    ensures Defined(Easter, Of(2010, 1, 1)) && NextDate(Easter, 0, 0, Of(2010, 1, 1)) == Of(2010, 4, 4)
  {
    EasterWindow(2010);
    EasterWindow(2011);
    Easter2010();
    TestDates();
  }

  /** Every 30 days from 2009-12-01: 31 days have passed on 2010-01-01, so the latest occurrence was
      2009-12-31. */
  lemma XDaysEvery30FromDecember()
    ensures NextDate(XDays(Of(2009, 12, 1), 30), 0, 0, Of(2010, 1, 1)) == Of(2009, 12, 31)
  {
    TestDates();
    RemOfNatural(31, 30);
    assert XDaysPrior(Date(14579), 30, Date(14610)) == Date(14609);
  }

  /** Every 3 days from 2009-12-31, with 5 days' grace: one day has passed, the latest occurrence is
      the start. */
  lemma XDaysEvery3FromNewYearsEve()
    ensures NextDate(XDays(Of(2009, 12, 31), 3), 0, 5, Of(2010, 1, 1)) == Of(2009, 12, 31)
  {
    TestDates();
    var start, ref := Date(14609), Date(14610);
    RemOfNatural(1, 3);
    assert XDaysPrior(start, 3, ref) == start;
    assert XDaysFollowing(start, 3, ref) == Date(14612);
    assert XDaysNext(start, 3, 0, 5, ref) == start;
  }

  /** Every 3 days from 2010-01-01: on the start date itself the start is returned. */
  lemma XDaysOnStartDate()
    ensures NextDate(XDays(Of(2010, 1, 1), 3), 0, 0, Of(2010, 1, 1)) == Of(2010, 1, 1)
  {
  }

  /** Every 3 days from 2009-01-01: 365 days have passed, two past an occurrence, so the latest
      occurrence was 2009-12-30. */
  lemma XDaysEvery3FromLastYear()
    ensures NextDate(XDays(Of(2009, 1, 1), 3), 0, 0, Of(2010, 1, 1)) == Of(2009, 12, 30)
  {
    TestDates();
    RemOfNatural(365, 3);
    assert XDaysPrior(Date(14245), 3, Date(14610)) == Date(14608);
  }

  /** `displayToDo` on 2017-12-30 for an item due 2018-01-01 with 7 days' notice and 5 days' grace:
      hidden only when completed inside the window. Both versions agree. */
  lemma DisplayAroundNewYear2018()
    ensures var next, ref := Of(2018, 1, 1), Of(2017, 12, 30);
      DomainToDo.DisplayToDo(next, 7, 5, Of(1970, 1, 1), ref)
      && !DomainToDo.DisplayToDo(next, 7, 5, Of(2018, 1, 1), ref)
      && DomainToDo.DisplayToDo(next, 7, 5, Of(2017, 12, 20), ref)
      && DomainToDo.DisplayToDo(next, 7, 5, Of(2018, 1, 7), ref)
      && ModelToDo.DisplayToDo(next, 7, 5, Of(1970, 1, 1), ref)
      && !ModelToDo.DisplayToDo(next, 7, 5, Of(2018, 1, 1), ref)
      && ModelToDo.DisplayToDo(next, 7, 5, Of(2017, 12, 20), ref)
      && ModelToDo.DisplayToDo(next, 7, 5, Of(2018, 1, 7), ref)
  {
  }

  /** The XDays display cases on 2010-01-01: completing inside the window hides the item, even when
      the window is the single due day. */
  lemma XDaysDisplayOnNewYear2010()
    ensures var ref := Of(2010, 1, 1);
      DomainToDo.DisplayToDo(Of(2010, 1, 1), 0, 1, Of(2010, 12, 31), ref)
      && !DomainToDo.DisplayToDo(Of(2010, 1, 1), 0, 1, Of(2010, 1, 1), ref)
      && !DomainToDo.DisplayToDo(Of(2010, 1, 1), 0, 0, Of(2010, 1, 1), ref)
      && !DomainToDo.DisplayToDo(Of(2010, 1, 2), 1, 1, Of(2010, 1, 1), ref)
  {
  }
}
