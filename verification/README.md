# Recurring to-do items: recurrence rules and visibility, in Dafny

This project models the logic core of a desktop reminders app written in Kotlin. The app has one
kind of record, the to-do item. Each item has a recurrence rule and several derived properties.

- **Recurrence rules.** There are nine kinds: never, daily, once, weekly, monthly, yearly, every X
  days, Nth weekday of a month, and Easter. Each rule maps a reference date to the item's next due
  date, using two offsets:
  - an *advance notice*: how many days before the due date the item appears;
  - a *grace period*: how many days after the due date the item stays.
- **The display decision.** An item is shown while today lies in the window
  `[next − advance, next + grace]`, unless its last completion already lies in that window.
- **Derived properties of an item:**
  - its rule, chosen by a string tag;
  - its next date, counted from the later of its completion date and today;
  - whether it is complete;
  - the days until it is due;
  - the English name of its weekday;
  - its one-off date.

The repository has two versions of the item class:
- the older `src.model.ToDo`;
- the newer `src.domain.ToDo`. It adds a display area, passes the advance notice to the rule, and
  has a fallback in its `displayToDo` that shows an item on its due date.

The model keeps both versions and proves how they relate.

Modules:

- `IntOps` (`int_ops.dfy`): Kotlin's `/` and `rem`, which truncate toward zero.
- `Calendar` (`calendar.dfy`): the part of `java.time.LocalDate` the rules use:
  - `LocalDate.of`;
  - the year, month and day fields;
  - `plusDays`, `plusWeeks`, `plusMonths`;
  - day differences, the day of the week, `nextOrSame`.

  A date is held as its epoch day. The conversion to and from (year, month, day) is proved to be
  a bijection on valid dates, and the date order is proved to be the lexicographic one.
- `Frequencies` (`frequency.dfy`): the nine rules and their dispatch. It also holds the helpers
  `nextMonthDay`, `nextYearDay`, `nextXWeekdayOfMonth`, the Easter computus and
  `getWeekdayByName`.
- `ToDoFields` (`todo_fields.dfy`): what both item classes spell out identically:
  - the `NONE_DATE` sentinel;
  - `weekdayName`;
  - the tag dispatch `frequencyType`;
  - the reference date of `nextDate`;
  - the display window.
- `DomainToDo` (`domain_todo.dfy`) and `ModelToDo` (`model_todo.dfy`): the two item classes and
  their `displayToDo`.
- `ToDoVersions` (`todo_versions.dfy`): where the two versions agree and where they differ.
- `TestVectors` (`test_vectors.dfy`): the fixed dates of the repository's unit tests, proved of
  the model.

Exceptions become preconditions:
- `LocalDate.of` rejects invalid dates, `DayOfWeek.of` rejects a weekday outside 1..7, and `rem`
  divides by zero. These become the preconditions `Frequencies.Defined` and
  `DomainToDo.Schedulable` / `ModelToDo.Schedulable`.
- `getWeekdayByName` throws on an unknown name. The model returns `None` instead.

## Model

| member | source | states |
|---|---|---|
| `IntOps.Quot` | src/main/kotlin/src/model/Frequency.kt:97 | Kotlin's truncating `/`: it equals Euclidean division on a non-negative dividend, and is its negation on a non-positive one |
| `IntOps.Rem` | src/main/kotlin/src/model/Frequency.kt:70 | Kotlin's `rem`: `a − rem == b·quot`, magnitude below the divisor's, and the sign of the dividend (so it is ≤ 0 when the reference is before the start) |
| `IntOps.RemOfNatural` | src/main/kotlin/src/model/Frequency.kt:96 | on a non-negative dividend and positive divisor `rem` is the Euclidean remainder |
| `Calendar.Of` | src/main/kotlin/src/model/Frequency.kt:126 | `LocalDate.of` takes exactly the valid (year, month, day) and gives back a date with exactly those fields |
| `Calendar.Civil` | src/main/kotlin/src/model/Frequency.kt:114 | the year, month and day of a date form a valid triple whose day count is the date's |
| `Calendar.FieldsOfDate` | src/main/kotlin/src/model/Frequency.kt:126 | `year`, `monthValue` and `dayOfMonth` place the date: the year whose days contain it, the month of that year whose days contain it, and the day counted from that month's first |
| `Calendar.OfCivil` | src/main/kotlin/src/model/Frequency.kt:126 | every date is `LocalDate.of` its own fields, so dates and valid triples correspond one to one |
| `Calendar.DayNumberInjective` | src/main/kotlin/src/model/Frequency.kt:126 | two valid dates with the same day count are the same date |
| `Calendar.BeforeIsLexicographic` | src/main/kotlin/src/model/Frequency.kt:128 | the date comparison used by every rule is the lexicographic order on (year, month, day) |
| `Calendar.LaterMonthIsLater` | src/main/kotlin/src/model/Frequency.kt:127 | a date in a later month is later |
| `Calendar.PlusDays` | src/main/kotlin/src/model/Frequency.kt:72 | `plusDays(n)` moves the day count by exactly `n` |
| `Calendar.MinusDays` | src/main/kotlin/src/model/Frequency.kt:71 | `minusDays(n)` moves the day count back by exactly `n` |
| `Calendar.PlusWeeks` | src/main/kotlin/src/model/Frequency.kt:141 | `plusWeeks(k)` moves the day count by exactly `7k` |
| `Calendar.PlusWeeksKeepsWeekday` | src/main/kotlin/src/model/Frequency.kt:140-141 | moving whole weeks keeps the day of the week |
| `Calendar.DaysBetween` | src/main/kotlin/src/model/Frequency.kt:69 | `DAYS.between(from, to)` is the number of days to add to `from` to reach `to` |
| `Calendar.DayOfWeekAfter` | src/main/kotlin/src/model/Frequency.kt:141 | moving `n` days moves the weekday `n` steps around the week |
| `Calendar.NextOrSame` | src/main/kotlin/src/model/Frequency.kt:41 | `nextOrSame(w)` falls on `w`, 0 to 6 days after the date, and is the date itself iff the date already falls on `w` |
| `Calendar.PlusMonths` | src/main/kotlin/src/model/Frequency.kt:127 | `plusMonths(k)` moves the month count by `k` and keeps the day of the month, clamped to the month's end |
| `Frequencies.NeverDateIsLast` | src/main/kotlin/src/model/Frequency.kt:18 | no date up to the year 9999 lies after the date a `Never` rule returns |
| `Frequencies.NextMonthDay` | src/main/kotlin/src/model/Frequency.kt:125-129 | this month's day iff the reference is within the grace period; whenever it is not this month's day, it is the next month's (clamped to that month's end) and later than the reference; the reference is never past the result's grace period when the grace is ≥ 0 |
| `Frequencies.NextYearDay` | src/main/kotlin/src/model/Frequency.kt:131-135 | the month/day of the reference year iff the reference is within the grace period, else of the next year and later than the reference; the reference is never past the result's grace period when the grace is ≥ 0 |
| `Frequencies.NoConsecutiveLeapDays` | src/main/kotlin/src/model/Frequency.kt:132-133 | no year has February 29 both in it and in the following year |
| `Frequencies.YearlyFebruary29NeverDefined` | src/main/kotlin/src/model/Frequency.kt:131-135 | a yearly rule on February 29 throws for every reference date, because both years' dates are built eagerly |
| `Frequencies.XDaysPrior` | src/main/kotlin/src/model/Frequency.kt:69-71 | `prior` lies a whole number of intervals from the start; it is in `(ref − days, ref]` from the start on and in `[ref, ref + days)` before it; it is the start on the start date |
| `Frequencies.XDaysFollowing` | src/main/kotlin/src/model/Frequency.kt:72 | `next` is exactly one interval after `prior`, and one more whole interval from the start |
| `Frequencies.XDaysNext` | src/main/kotlin/src/model/Frequency.kt:67-80 | the result is `prior` or `next`; it is the start on the start date; `next` is chosen iff the reference is not the start, lies in `next`'s advance-notice window and lies within `prior`'s grace period; with no advance notice and a positive interval it is always `prior` |
| `Frequencies.XDaysWithoutAdvanceIsLatestOccurrence` | src/main/kotlin/src/model/Frequency.kt:73-78 | with no advance notice and a positive interval, from the start on, the result is the latest occurrence on or before the reference |
| `Frequencies.XDaysAfterGraceKeepsPrior` | src/main/kotlin/src/model/Frequency.kt:76-77 | once the reference is past `prior`'s grace period the rule returns `prior`, even inside `next`'s advance-notice window |
| `Frequencies.XWeek` | src/main/kotlin/src/model/Frequency.kt:138-142 | the computed date falls on the weekday, in the `week`-th block of seven days counted from the first of the month |
| `Frequencies.XWeekInMonth` | src/main/kotlin/src/model/Frequency.kt:138-142 | for weeks 1 to 4 it stays in the month, with day of month in `[7(w−1)+1, 7w]` |
| `Frequencies.NextXWeekdayOfMonth` | src/main/kotlin/src/model/Frequency.kt:137-148 | the reference year's date iff it is strictly after the reference, else the next year's; the result falls on the weekday and, for week ≥ 1, is strictly after the reference |
| `Frequencies.XWeekOfEitherYearInMonth` | src/main/kotlin/src/model/Frequency.kt:143-147 | the date of either candidate year lies in the target month of that year, in the week's block of days |
| `Frequencies.NextXWeekdayOfMonthInMonth` | src/main/kotlin/src/model/Frequency.kt:137-148 | for weeks 1 to 4 the result lies in the target month of the reference year or the next, in the week's block of days |
| `Frequencies.ComputusH` | src/main/kotlin/src/model/Frequency.kt:96-103 | for years ≥ 0 the epact step `h` is in 0..29 |
| `Frequencies.ComputusL` | src/main/kotlin/src/model/Frequency.kt:104-106 | for years ≥ 0 the weekday step `l` is in 0..6 |
| `Frequencies.ComputusTail` | src/main/kotlin/src/model/Frequency.kt:107-109 | for every golden number, epact and weekday step in range, `h + l − 7m + 114` lies in 114..148 |
| `Frequencies.EasterMonthDay` | src/main/kotlin/src/model/Frequency.kt:96-109 | for every year ≥ 0 the computus gives a month and day between March 22 and April 25 |
| `Frequencies.EasterDefinedFromYearZero` | src/main/kotlin/src/model/Frequency.kt:114-115 | from the year 0 on, both eager `calculateEaster` calls return instead of throwing |
| `Frequencies.EasterWindow` | src/main/kotlin/src/model/Frequency.kt:95-111 | for every year ≥ 0 `LocalDate.of` accepts the computus' month and day, and the resulting date lies between March 22 and April 25 of that year |
| `Frequencies.CalculateEaster` | src/main/kotlin/src/model/Frequency.kt:95-111 | `calculateEaster(year)` is the date in `year` with the computus' month and day |
| `Frequencies.EasterNext` | src/main/kotlin/src/model/Frequency.kt:113-120 | this year's Easter iff the reference is within its grace period, else next year's, which is later than the reference; the reference is never past the result's grace period when the grace is ≥ 0 |
| `Frequencies.NextDate` | src/main/kotlin/src/model/Frequency.kt:8-123 | the dispatch: Weekly is on the weekday, ≥ the reference and ≤ 6 days later; Daily, Weekly, Monthly, Yearly and Easter never leave the reference past the result's grace period; Irregular with week ≥ 1 is strictly after the reference |
| `Frequencies.Defined` | src/main/kotlin/src/model/Frequency.kt:8-148 | the inputs on which `nextDate` does not throw: Never, Daily and Weekly always; Monthly with a day up to 28 always; Easter from the year 0 on |
| `Frequencies.FixedRules` | src/main/kotlin/src/model/Frequency.kt:16-37 | Never gives 9999-12-31, Daily the reference, Once its stored date, whatever the offsets |
| `Frequencies.AdvanceOnlyAffectsXDays` | src/main/kotlin/src/model/Frequency.kt:9-13 | no rule except XDays reads the advance notice |
| `Frequencies.WeeklySameDay` | src/main/kotlin/src/model/Frequency.kt:39-44 | Weekly returns the reference itself iff it already falls on the weekday |
| `Frequencies.GetWeekdayByName` | src/main/kotlin/src/model/Frequency.kt:151-161 | the seven English day names give 1..7; every other string fails |
| `ToDoFields.WeekdayName` | src/main/kotlin/src/domain/ToDo.kt:61-71 | `weekdayName` is the name `getWeekdayByName` reads back as the same number for 1..7, and a name it rejects otherwise |
| `ToDoFields.WeekdayNameRoundTrip` | src/main/kotlin/src/domain/ToDo.kt:61-71 | every name `getWeekdayByName` accepts is the `weekdayName` of its number |
| `ToDoFields.FrequencyOf` | src/main/kotlin/src/domain/ToDo.kt:73-88 | `frequencyType`: Never iff the tag is none of the eight known tags; otherwise the variant the tag names, its parameters taken from the matching fields |
| `ToDoFields.DispatchRoundTrip` | src/main/kotlin/src/model/ToDo.kt:70-81 | saving any rule as its tag and parameters and dispatching again gives the same rule back |
| `ToDoFields.Reference` | src/main/kotlin/src/domain/ToDo.kt:103-106 | the reference date is the later of the completion date and today |
| `ToDoFields.InWindow` | src/main/kotlin/src/domain/ToDo.kt:137-140 | defines the inclusive window `[nextDate − advance, nextDate + expire]` as the source's pair of date comparisons; a non-empty window needs `advance + expire ≥ 0` |
| `ToDoFields.NoneDateIsEpoch` | src/main/kotlin/src/domain/ToDo.kt:30 | `NONE_DATE` is epoch day 0, a Thursday |
| `ToDoFields.NeverCompletedIsScheduledFromToday` | src/main/kotlin/src/domain/ToDo.kt:103-106 | for every day after 1970 `NONE_DATE` is earlier, so a never-completed item's reference date is today |
| `DomainToDo.Default` | src/main/kotlin/src/domain/ToDo.kt:32-52 | a new item is a one-off due today, never completed, with 90 days' grace, no advance notice, interval 1, weekday 1, week 1, on the to-do list |
| `DomainToDo.FrequencyType` | src/main/kotlin/src/domain/ToDo.kt:73-88 | the item's rule: Never iff the tag is unknown, otherwise the tag's variant with the item's fields |
| `DomainToDo.Schedulable` | src/main/kotlin/src/domain/ToDo.kt:73-107 | where `nextDate` does not throw: a Weekly item iff its weekday is 1..7; always for Daily and unknown tags; always for Monthly with a day up to 28 |
| `DomainToDo.OnceDate` | src/main/kotlin/src/domain/ToDo.kt:109-110 | the date with the item's year, month and day |
| `DomainToDo.NextDate` | src/main/kotlin/src/domain/ToDo.kt:99-107 | unknown tag gives 9999-12-31; Daily gives the later of completion and today; Once gives `onceDate`; Weekly is on the weekday within 6 days of the reference |
| `DomainToDo.DisplayToDo` | src/main/kotlin/src/domain/ToDo.kt:130-147 | false whenever the last completion is in the window; otherwise true iff the reference is in the window or is the due date |
| `DomainToDo.FallbackUnreachable` | src/main/kotlin/src/domain/ToDo.kt:141-146 | with offsets ≥ 0 the due-date fallback decides nothing: shown iff the reference is in the window and the completion is not |
| `DomainToDo.Display` | src/main/kotlin/src/domain/ToDo.kt:90-97 | an item is never shown while its completion is in the window; with offsets ≥ 0 it is shown iff today is in the window and the completion is not |
| `DomainToDo.Complete` | src/main/kotlin/src/domain/ToDo.kt:112-113 | a complete item is not shown; a never-completed item is never complete |
| `DomainToDo.CompletedTodayIsHidden` | src/main/kotlin/src/domain/ToDo.kt:90-113 | with offsets ≥ 0 an item completed today is hidden today and complete |
| `DomainToDo.DaysUntil` | src/main/kotlin/src/domain/ToDo.kt:55-56 | the signed day count from today to the due date: zero iff due today, negative iff overdue |
| `DomainToDo.DailyDueToday` | src/main/kotlin/src/domain/ToDo.kt:55-56 | a daily item not completed in the future is due in 0 days |
| `DomainToDo.WeeklyDueWithinAWeek` | src/main/kotlin/src/domain/ToDo.kt:99-107 | a weekly item not completed in the future is due in 0 to 6 days, on its weekday |
| `DomainToDo.DefaultIsDueAndShown` | src/main/kotlin/src/domain/ToDo.kt:32-52 | after 1970-01-01 a new item is due today, shown today and not complete |
| `ModelToDo.Default` | src/main/kotlin/src/model/ToDo.kt:33-52 | a new item is a one-off due today, never completed, with 90 days' grace, no advance notice, interval 1, weekday 1, week 1 |
| `ModelToDo.FrequencyType` | src/main/kotlin/src/model/ToDo.kt:70-81 | the same dispatch: Never iff the tag is unknown, otherwise the tag's variant with the item's fields |
| `ModelToDo.Schedulable` | src/main/kotlin/src/model/ToDo.kt:70-99 | where `nextDate` does not throw: a Weekly item iff its weekday is 1..7; always for Daily and unknown tags; always for Monthly with a day up to 28 |
| `ModelToDo.OnceDate` | src/main/kotlin/src/model/ToDo.kt:101-102 | the date with the item's year, month and day |
| `ModelToDo.NextDate` | src/main/kotlin/src/model/ToDo.kt:92-99 | unknown tag gives 9999-12-31; Daily gives the later of completion and today; Once gives `onceDate` |
| `ModelToDo.XDaysDueIsLatestOccurrence` | src/main/kotlin/src/model/ToDo.kt:92-99 | for a positive interval, from the start date on, an XDays item is due on the latest occurrence on or before its reference, whatever its advance notice |
| `ModelToDo.AdvanceNoticeIgnored` | src/main/kotlin/src/model/ToDo.kt:92-99 | changing the advance notice never changes the due date |
| `ModelToDo.DisplayToDo` | src/main/kotlin/src/model/ToDo.kt:193-206 | shown iff the last completion is outside the window and the reference is inside it |
| `ModelToDo.Display` | src/main/kotlin/src/model/ToDo.kt:83-90 | shown iff the last completion lies outside and today inside the window `[next − advance, next + expire]` of the next due date; hence never shown on the day it was completed, whatever its offsets |
| `ModelToDo.Complete` | src/main/kotlin/src/model/ToDo.kt:104-105 | a complete item is not shown; a never-completed item is never complete; an item completed today is complete |
| `ModelToDo.DaysUntil` | src/main/kotlin/src/model/ToDo.kt:55-56 | the signed day count from today to the due date: zero iff due today, negative iff overdue |
| `ModelToDo.DefaultIsDueAndShown` | src/main/kotlin/src/model/ToDo.kt:33-52 | after 1970-01-01 a new item is due today, shown today and not complete |
| `ToDoVersions.DisplayVersionsAgree` | src/main/kotlin/src/model/ToDo.kt:199-206 | with offsets ≥ 0 the two `displayToDo` functions agree on every input |
| `ToDoVersions.DisplayVersionsDifferOnEmptyWindow` | src/main/kotlin/src/domain/ToDo.kt:144 | with a grace of −1, on the due date, only the newer function shows the item |
| `ToDoVersions.NextDatesAgreeOutsideXDays` | src/main/kotlin/src/model/ToDo.kt:92-99 | for every tag but XDays both items compute the same due date |
| `ToDoVersions.AdvanceNoticeAnnouncesXDaysEarlier` | src/main/kotlin/src/domain/ToDo.kt:99-107 | inside `next`'s advance-notice window and `prior`'s grace period, the newer item is due on `next` and the older on `prior`, and these differ |
| `TestVectors.SimpleRulesFromNewYear2010` | src/test/kotlin/domain/TestFrequency.kt:16-23 | from 2010-01-01: Daily 2010-01-01, Weekly(Monday) 2010-01-04, Never 9999-12-31, Monthly(31) 2010-01-31, Yearly(3, 31) 2010-03-31, Once(2010, 1, 31) 2010-01-31 |
| `TestVectors.Thanksgiving2010` | src/test/kotlin/domain/TestFrequency.kt:22 | the fourth Thursday of November after 2010-01-01 is 2010-11-25 |
| `TestVectors.Easter2010` | src/main/kotlin/src/model/Frequency.kt:95-111 | the computus gives April 4 for 2010 |
| `TestVectors.EasterFromNewYear2010` | src/test/kotlin/domain/TestFrequency.kt:24 | the next Easter from 2010-01-01 is 2010-04-04 |
| `TestVectors.XDaysEvery30FromDecember` | src/test/kotlin/domain/TestFrequency.kt:25 | every 30 days from 2009-12-01, seen on 2010-01-01: 2009-12-31 |
| `TestVectors.XDaysEvery3FromNewYearsEve` | src/test/kotlin/domain/TestFrequency.kt:59 | every 3 days from 2009-12-31 with 5 days' grace: 2009-12-31 |
| `TestVectors.XDaysOnStartDate` | src/test/kotlin/domain/TestFrequency.kt:60 | every 3 days from 2010-01-01, on that day: 2010-01-01 |
| `TestVectors.XDaysEvery3FromLastYear` | src/test/kotlin/domain/TestFrequency.kt:61 | every 3 days from 2009-01-01: 2009-12-30 |
| `TestVectors.DisplayAroundNewYear2018` | src/test/kotlin/domain/TestFrequency.kt:36-55 | due 2018-01-01, 7 days' notice, 5 days' grace, seen 2017-12-30: shown unless completed on 2018-01-01, in both versions |
| `TestVectors.XDaysDisplayOnNewYear2010` | src/test/kotlin/domain/TestFrequency.kt:70-92 | the four XDays display cases on 2010-01-01: shown only when last completed 2010-12-31 |

## Left out

- The clock. `LocalDate.now()` is read by `nextDate`, `display` and `daysUntil`, and by `default()`. Here it is the parameter `today`.
- The year range of `LocalDate` and the 32- and 64-bit limits of `Int` and `Long`. Years and day counts are unbounded integers. Overflow in `days - modDays` or in the computus, and `DateTimeException` for years out of range, are not modelled.
- `src/main/kotlin/src/domain/Frequency.kt` is not part of this model. The newer item calls the rules of its own package. Both items are modelled over the rules of `src/main/kotlin/src/model/Frequency.kt`. The unit tests in `src/test/kotlin/domain/TestFrequency.kt` belong to a third copy of the rules in package `domain`, which is not part of this model either. `TestVectors` proves that their expected dates hold for the `src/main/kotlin/src/model/Frequency.kt` rules.
- The `toString` of every rule, `displayAreaText`, the `item` self-reference, and data-class equality are left out. They are text formatting or Kotlin plumbing.
- The `ToDos` table, `ResultRow.toToDo`, and the seed sets `holidays` and `birthdays` are left out. They are persistence and plain data.
- The rule that deletes a one-off item once it is complete lives in the controllers and repositories, around database calls.
- User interface, reactive event plumbing and database access are left out.
- `Frequencies.GetWeekdayByName` returns `None` where the source throws an exception.
- `Frequencies.EasterWindow` is stated for years ≥ 0 only. For negative years the truncating arithmetic can produce an invalid month or day. That is covered by the precondition `Frequencies.EasterDefined`.
