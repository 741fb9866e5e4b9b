# A verified model of Gamwich's recurrence engine and run-time state machines

Gamwich is a household server. Calendar events and chores repeat by recurrence rules;
reminders, one-time codes, request limits and a tunnel process run beside them. This
project models those parts in Dafny and proves what they keep.

Time is one integer: whole seconds since 0001-01-01 00:00:00 UTC, which is Go's zero
time and a Monday. Months are counted by one index, 12 * year + (month - 1).

What is modelled, file by file:

- `Calendar.dfy`: the proleptic Gregorian calendar, `time.Date`, `AddDate`, `Weekday`.
- `Rules.dfy`, `Text.dfy`, `RRule.dfy`: the rule record, Go's string and number routines,
  `Parse` and `String`; `RRuleLaws.dfy` and `RuleMeaning.dfy` prove their round trips, and
  `ParseMeaning.dfy` which strings are accepted and what each part decides.
- `LeapYears.dfy`: leap years met at equal strides, which decide two loops of the iterator.
- `Iterator.dfy`: the mutable iterator with every `advance*` method, beside a function on
  values that says what one advance does. Two advances contain loops that can run for
  ever; the function answers `None` exactly then, and the methods may be called exactly
  when it answers `Some`. `WeeklyLaw.dfy`, `MonthlyLaw.dfy`, `YearlyLaw.dfy` and
  `SequenceLaws.dfy` prove which instants come out, in which order, and when a loop ends.
- `Expand.dfy`, `ExpandLaws.dfy`: `Expand` and its exactness. `ReturnLaws.dfy`: when it
  returns at all. `OrderLaw.dfy`, `WindowLaw.dfy`: which BYDAY lists it is exact for, and
  when two windows agree.
- `Chore.dfy`: `ComputeStatus` and `IsDueOnDate`. `DueOrder.dfy`, `ChoreLaws.dfy`: what
  their answers mean, and for which BYDAY lists they are right and never go back.
- `TimeKeys.dfy`, `EventStore.dfy`, `Merge.dfy`, `MergeLaws.dfy`, `EventEdits.dfy`: the
  event table, both implementations of the merge, conservation, and the effect of
  editing or deleting one occurrence or a whole series.
- `Reminders.dfy`: the notification scheduler and its sent table.
- `RateLimit.dfy`: the fixed-window limiter.
- `MagicLinks.dfy`: one-time codes.
- `Tunnel.dfy`, `Supervisor.dfy`: the tunnel manager, its retry loop, and all
  interleavings of that loop with calls of Start, Stop and UpdateConfig.

"In order" below means that no occurrence precedes an earlier one that COUNT, UNTIL and
the cap of 10000 allow. `OrderLaw.InOrderIff` turns this into a test on the rule and the
start; every rule without BYDAY passes it, and so does BYDAY from Monday to Sunday. An
entry of BYDAY is overtaken if it is listed after a later weekday while still allowed.

## Where the code does less than one might expect

Each of these is proved, with the exact condition under which the code does meet the
expectation.

- `Expand` does not return where the iterator hangs first: a monthly rule whose skip loop
  never ends, or a rule from 29 February that meets a year that is not leap. Both are
  conditions on the rule and the start (`ReturnLaws.NeverHangsIff`), and whether a given
  window is affected can be checked before the call (`ReturnLaws.ExpandReturnsIff`, and
  for the callers `Chores.AnswersIff`, `Chores.AnswersOnDateIff`, `MergeLaws.ViewableIff`).
  COUNT=1 does not save a hanging rule, because the advance comes before the count test.
- `Parse` does not sort BYDAY, but `Expand` stops at the first occurrence past the window
  or past UNTIL, so it is exact on every window iff no entry is overtaken
  (`OrderLaw.ExactIff`); up to repetitions, iff no entry is whose weekday is not listed
  before it (`OrderLaw.ExactAsSetIff`). Entries overtaken by a day past UNTIL are lost on
  every window (`OrderLaw.UntilHides`, `OrderLaw.MondayIsLost`), the others on some; two
  windows can then disagree on a day both contain (`OrderLaw.WindowsAgreeIff`,
  `OrderLaw.WindowsNestIff`).
- For the same reason the due date of a chore can be wrong (`ChoreLaws.DueAlwaysCurrentIff`),
  and `IsDueOnDate` can miss a scheduled day (`ChoreLaws.DueOnAlwaysRightIff`).
- The due date can even go back, so that a pending chore becomes completed again with no
  new completion (`ChoreLaws.MayUndoItself`). It does exactly for the BYDAY lists with three
  entries in one week that `DueOrder.NeverUndoes` looks for (`ChoreLaws.DueNeverGoesBackIff`,
  `ChoreLaws.UndoneStaysUndoneIff`).
- A monthly rule whose BYMONTHDAY differs from the start's day can jump over the first
  month after the start (31 January with BYMONTHDAY=15 skips February): exactly when that
  month has the wanted day but not the start's (`MonthlyLaw.NoMonthMissedIff`).
- A monthly rule leaves the k * INTERVAL grid as soon as a target month lacks the day
  (`MonthlyLaw.OnGridIff`, `MonthlyLaw.JulyThirtyFirstDrifts`).
- A yearly rule from 29 February hangs at the first target year that is not leap
  (`YearlyLaw.LeapDayOccurrences`, `YearlyLaw.LeapDayForeverIff`).
- Deleting or editing one occurrence works exactly when the series starts on a whole
  minute; otherwise the exception is filed under an instant that is no occurrence and
  nothing changes (`EventEdits.OneOccurrenceChanges`). With no date given it is filed under
  the series' start, which need not be an occurrence either (`EventEdits.UndatedMayMiss`).
- An exception moved to another day stays in the window of its original start and is
  missing from the window of its new one (`MergeLaws.ExceptionListedIff`); so a list holds
  events outside its window exactly when such an exception does (`MergeLaws.AllInsideIff`).
- `IsDueOnDate` also holds on the day after an occurrence when the chore was created after
  23:00:00 (`ChoreLaws.DueOnIs`).
- `String` drops a fraction that `Parse` accepts in UNTIL. The rule read back differs, its
  expansions do not (`RuleMeaning.ReparsingKeepsMeaning`).
- The limiter admits up to 2 * limit - 1 calls in an interval as long as its window, and
  no more (`RateLimit.FewerThanTwiceTheLimit`, `RateLimit.BoundIsReached`).
- The comment on the delete handler says that CASCADE removes the exceptions of a deleted
  series. Whether the database driver enforces that is not part of this model; the merged
  list is proved to be the same either way (`EventEdits.DeleteAllRemovesOneSeries`).

## Model

| member | source | states |
|---|---|---|
| Calendar.CivilRoundTrip | internal/recurrence/expand.go:205-209 | a month and day that exist, turned into a day number, are read back unchanged |
| Calendar.DayRoundTrip | internal/recurrence/expand.go:205-209 | every day number is the date read off it, and that date exists in its month |
| Calendar.DateReadBack | internal/recurrence/expand.go:206-209 | a date and time that exist, made into an instant by time.Date, are read back unchanged |
| Calendar.MonthsTile | internal/recurrence/expand.go:231-233 | each month starts where the one before ends, for all years, so the month table and the leap rule fit the day count |
| Calendar.YearStartIs | internal/recurrence/expand.go:231-233 | the months, laid end to end from year 1, put each 1 January where the count of leap years by 4, 100 and 400 puts it, for all years |
| Calendar.UnixEpoch | internal/recurrence/expand.go:164-172 | 1 January 1970 lies 62135596800 seconds after the zero time and was a Thursday, as in Go |
| Calendar.AddDateNormalises | internal/recurrence/expand.go:186 | AddDate moves the month index, lets the day overflow and keeps the time of day |
| Calendar.AddDays | internal/recurrence/expand.go:103 | adding days only adds that many times 86400 seconds |
| LeapYears.AlwaysLeapIff | internal/recurrence/expand.go:221-225 | from a leap year, all years met at a fixed stride are leap iff a condition on two remainders holds |
| LeapYears.NeverLeapIff | internal/recurrence/expand.go:194-202 | no year met at a fixed stride is leap iff another such condition holds |
| Iteration.DaysInMonthIsTable | internal/recurrence/expand.go:231-233 | day 0 of the next month is the usual table of month lengths, leap years included |
| Iteration.WeekStartIsMonday | internal/recurrence/expand.go:164-172 | weekStart is midnight of the Monday on or before |
| Iteration.CandidateIs | internal/recurrence/expand.go:137-148 | the candidate of a weekday is that day of the week at the start's time of day |
| Iteration.Iterator.Next | internal/recurrence/expand.go:66-79 | one advance per call up to 10000, then the zero time for ever |
| Iteration.Iterator.AdvanceOnce | internal/recurrence/expand.go:81-96 | the fields and the answer are those of the advance function for every frequency |
| Iteration.Iterator.AdvanceDaily | internal/recurrence/expand.go:98-105 | first the start, then INTERVAL days on |
| Iteration.Iterator.AdvanceWeeklySimple | internal/recurrence/expand.go:107-114 | first the start, then INTERVAL weeks on |
| Iteration.Iterator.AdvanceWeeklyByDay | internal/recurrence/expand.go:116-133 | the next BYDAY entry, or the first one of the next week period |
| Iteration.Iterator.FindNextByDay | internal/recurrence/expand.go:135-162 | settles on the first entry not before the start, in this week or a later one, and terminates |
| Iteration.Iterator.AdvanceMonthly | internal/recurrence/expand.go:174-211 | settles on the first month the skip finds, and terminates whenever the skip ends |
| Iteration.Iterator.AdvanceYearly | internal/recurrence/expand.go:213-229 | adds INTERVAL years, skipping to a 29th for a 29 February start, and terminates whenever that skip ends |
| Iteration.HangsOn | internal/recurrence/expand.go:81-96 | an advance that never returns is the last one |
| WeeklyLaw.WalkFollowsPositions | internal/recurrence/expand.go:116-162 | after any number of advances the fields sit on the position a walk over weeks and BYDAY entries gives |
| WeeklyLaw.RecursesAtMostOnce | internal/recurrence/expand.go:157-161 | findNextByDay calls itself at most once, and only in the start's own week |
| WeeklyLaw.OnlyRuleDays | internal/recurrence/expand.go:116-162 | every occurrence is at or after the start, at its time of day, on a BYDAY weekday, in a Monday-based week that is a multiple of INTERVAL from the start's |
| WeeklyLaw.MissesNoRuleDay | internal/recurrence/expand.go:116-162 | conversely every such instant is some occurrence |
| WeeklyLaw.IncreasingIffMondayFirst | internal/recurrence/expand.go:116-162 | the order is strictly increasing iff BYDAY is listed Monday first without repeats |
| MonthlyLaw.LaterAdvanceNeverSkips | internal/recurrence/expand.go:185-204 | from an occurrence on the wanted day the skip loop is not entered: the next month is INTERVAL on, or one more when that month lacks the day |
| MonthlyLaw.SkipTurns | internal/recurrence/expand.go:194-202 | the skip leaves at the first target month that has the wanted day or lacks the start's, and only there |
| MonthlyLaw.LeavesWithinFive | internal/recurrence/expand.go:194-202 | if 12 does not divide INTERVAL the skip ends within five turns |
| MonthlyLaw.FirstAdvanceReturnsIff | internal/recurrence/expand.go:185-204 | the first monthly advance returns iff a condition read off start and rule holds: no month is skipped, or 12 does not divide INTERVAL, or the start lies in February and the leap years met allow it |
| MonthlyLaw.NeverEnds | internal/recurrence/expand.go:194-202 | 12 divides INTERVAL, start day at most 28 and day 30 or 31 missing from the start's month: the skip never ends |
| MonthlyLaw.MonthlyOccurrences | internal/recurrence/expand.go:174-211 | occurrence k is the wanted day of the k-th visited month at the start's time of day |
| MonthlyLaw.MonthlyOnWantedDay | internal/recurrence/expand.go:180-209 | every occurrence after the start lies on BYMONTHDAY, or on the start's day without one, at the start's time of day |
| MonthlyLaw.MonthlyReturnsIff | internal/recurrence/expand.go:174-211 | every later advance returns iff the first one does |
| MonthlyLaw.EveryMonthWithTheDay | internal/recurrence/expand.go:174-211 | INTERVAL 1 and the start's own day (1 to 31): every later month that has the day is visited |
| MonthlyLaw.OnlyMonthsWithTheDay | internal/recurrence/expand.go:174-211 | and every occurrence is that day of such a month, so none is missed and none invented |
| MonthlyLaw.NoMonthMissedIff | internal/recurrence/expand.go:180-204 | INTERVAL 1 and any BYMONTHDAY: no later month with the wanted day is missed iff the next month does not have the wanted day while lacking the start's |
| MonthlyLaw.OnGridIff | internal/recurrence/expand.go:185-204 | the first k occurrences lie j * INTERVAL months after the start iff all target months have the days |
| MonthlyLaw.ShortDaysOnGrid | internal/recurrence/expand.go:185-204 | start day and BYMONTHDAY at most 28: occurrence k lies k * INTERVAL months after the start, on BYMONTHDAY or else the start's day, at the start's time of day, for every k |
| MonthlyLaw.JulyThirtyFirstDrifts | internal/recurrence/expand.go:185-189 | a witness: two months after 31 July of any year comes 31 October |
| YearlyLaw.YearlyOccurrences | internal/recurrence/expand.go:213-229 | a start other than 29 February: the same month and day in year + k * INTERVAL, for every k |
| YearlyLaw.YearlyDates | internal/recurrence/expand.go:213-229 | read as dates: the year grows by k * INTERVAL and month, day and time of day stay |
| YearlyLaw.LeapDaySkip | internal/recurrence/expand.go:221-225 | from 29 February the skip leaves at once iff the target year is leap, and otherwise never |
| YearlyLaw.StaysOnFirstOfMarch | internal/recurrence/expand.go:222-224 | after a target that is not leap the skip stands on 1 March at every turn |
| YearlyLaw.LeapDayOccurrences | internal/recurrence/expand.go:213-229 | occurrence k of a 29 February rule exists iff all k target years are leap, and is then 29 February |
| YearlyLaw.LeapDayForeverIff | internal/recurrence/expand.go:221-225 | such a rule never hangs iff a condition on the remainders of INTERVAL and the start's year holds; otherwise it hangs within 55 occurrences |
| SequenceLaws.PlainOccurrences | internal/recurrence/expand.go:98-114 | daily and plain weekly: occurrence k is k strides after the start |
| SequenceLaws.KeepsTimeOfDay | internal/recurrence/expand.go:81-96 | every occurrence of every rule keeps the start's time of day |
| SequenceLaws.IncreasingIffOrdered | internal/recurrence/expand.go:81-96 | for every frequency the occurrences strictly increase iff a BYDAY the rule uses is listed Monday first without repeats |
| SequenceLaws.NotBeforeStart | internal/recurrence/expand.go:81-96 | no occurrence precedes the start |
| SequenceLaws.OnePerDate | internal/recurrence/expand.go:81-96 | no two occurrences share a date iff BYDAY names no weekday twice, in whatever order it is |
| SequenceLaws.StartsOnRuleIff | internal/recurrence/expand.go:116-162 | the start itself is an occurrence iff no BYDAY leaves its weekday out |
| Expansion.Expand | internal/recurrence/expand.go:13-47 | the loop returns what the walk over occurrences with the four exits collects |
| ExpandLaws.KeptIs | internal/recurrence/expand.go:19-43 | which occurrences the reference filter keeps, in plain numbers: index below 10000 and COUNT, start not later than the second of UNTIL and before the window ends, end after it starts |
| ExpandLaws.AllowedIs | internal/recurrence/expand.go:19-37 | which occurrences the rule allows in any window, in the same plain numbers |
| ExpandLaws.ExpandIsExact | internal/recurrence/expand.go:13-47 | for a rule in order (OrderLaw.InOrderIff says when) and a start after the zero time, the answer is the ordered filter of all occurrences by index below 10000 and COUNT, UNTIL and overlap; the early exits lose nothing and COUNT counts from the start, whatever the window |
| OrderLaw.InOrderIff | internal/recurrence/rrule.go:95-103 | no occurrence precedes an allowed earlier one iff no BYDAY entry, in the start's week or the next, is listed after a later weekday while being within COUNT, the cap and UNTIL |
| OrderLaw.ExactIff | internal/recurrence/expand.go:26-31 | for every rule with a start after the zero time, Expand is that filter on every window iff that condition holds |
| OrderLaw.ExactAsSetIff | internal/recurrence/expand.go:25-43 | for every rule with a start after the zero time, the answer of every window holds exactly the occurrences index, COUNT, UNTIL and overlap allow, listed once or more, iff no entry whose weekday is not listed before it is overtaken so |
| OrderLaw.UntilHides | internal/recurrence/expand.go:26-28 | a BYDAY entry listed after a later weekday that lies past UNTIL is in no answer of any window, though UNTIL allows it (BYDAY without repeats) |
| OrderLaw.MondayIsLost | internal/recurrence/expand.go:26-28 | a witness: BYDAY=FR,MO from Wednesday 3 January 2024 until the 9th loses Monday the 8th on every window |
| ReturnLaws.NeverHangsIff | internal/recurrence/expand.go:81-96 | the iterator can be advanced for ever iff the rule is not monthly with an endless skip and not a leap-day rule that meets a year that is not leap, both read off rule and start |
| ReturnLaws.ExpandReturnsIff | internal/recurrence/expand.go:19-44 | for every rule, start and window, Expand returns iff the iterator never hangs, or the loop ends at the start (monthly) or at a 29 February before the first year without one (leap-day rule) |
| ReturnLaws.OthersAlwaysReturn | internal/recurrence/expand.go:19-44 | every other rule is expanded on every window |
| ExpandLaws.ExpandHolds | internal/recurrence/expand.go:38-43 | an occurrence is in the answer iff it satisfies those conditions, for rules in order and a start after the zero time |
| OrderLaw.ExpandMeans | internal/recurrence/expand.go:19-43 | membership in the answer in those plain numbers, an occurrence exactly at UNTIL included, where no entry whose weekday is not listed before it is overtaken |
| ExpandLaws.SelectedInOrder | internal/recurrence/expand.go:38-43 | for rules in order the filter is in order, and lists nothing twice when BYDAY has no repeats |
| WindowLaw.WindowSplits | internal/recurrence/expand.go:25-43 | where the first of equal occurrences the loop can reach are in order, for a start after the zero time and a positive duration: an occurrence is in [a,c) iff it is in [a,b) or in [b,c) |
| OrderLaw.WindowsAgreeIff | internal/recurrence/expand.go:25-43 | for every rule that holds for all windows iff no entry whose weekday is not listed before it, and which the loop can get to, is overtaken: a test on BYDAY, COUNT and UNTIL in the first two weeks |
| WindowLaw.SmallerWindow | internal/recurrence/expand.go:25-43 | where all occurrences the loop can reach are in order, a smaller window gives the subsequence of the larger answer that overlaps it |
| OrderLaw.WindowsNestIff | internal/recurrence/expand.go:25-43 | for every rule with a start after the zero time that holds for all windows iff no entry the loop can get to is overtaken |
| Text.SplitJoin | internal/recurrence/rrule.go:71 | splitting what was joined with a separator gives the parts back |
| Text.DigitsRoundTrip | internal/recurrence/rrule.go:147 | printed numbers are read back unchanged |
| RRule.Parse | internal/recurrence/rrule.go:62-139 | the loop over parts reads what the left-to-right reading gives, with its errors |
| RRule.String | internal/recurrence/rrule.go:141-171 | the parts are appended in the fixed order |
| RRuleLaws.ReadStamp | internal/recurrence/rrule.go:119-127 | an UNTIL with a four-digit year is read back as printed, without its fraction |
| RRuleLaws.OddYearUnreadable | internal/recurrence/rrule.go:119-126 | an UNTIL whose year does not have four digits is refused by both layouts |
| RRuleLaws.PrintThenParse | internal/recurrence/rrule.go:63-171 | Parse after String, for every rule: which rule comes back, and exactly which rules are refused |
| RRuleLaws.RoundTripIff | internal/recurrence/rrule.go:63-171 | Parse(String(r)) = r iff INTERVAL is positive, BYMONTHDAY is 0 to 31, COUNT is not negative and UNTIL is whole seconds of a four-digit year |
| RRuleLaws.ParseAccepts | internal/recurrence/rrule.go:87-127 | every accepted string gives a well-formed rule that String prints legibly |
| RRuleLaws.ParseThenPrint | internal/recurrence/rrule.go:63-171 | String(Parse(s)) parses to the same rule, up to a fraction of UNTIL, for every accepted s |
| ParseMeaning.AcceptedIff | internal/recurrence/rrule.go:63-139 | Parse accepts a string iff it is not empty, every part is one of the six keys with a value that key can have, and FREQ is among them |
| ParseMeaning.AnswerIs | internal/recurrence/rrule.go:68-139 | each field of the rule is the last value given to its key, or its default; BYDAY is all days named, in order |
| ParseMeaning.AtoiOf | internal/recurrence/rrule.go:89 | a number may have a sign and leading zeros and must fit 64 bits |
| ParseMeaning.AtoiOnly | internal/recurrence/rrule.go:89 | and nothing else is a number |
| ParseMeaning.TrimIs | internal/recurrence/rrule.go:98 | spaces are taken off both ends of a day name and nowhere else |
| ParseMeaning.UntilDate | internal/recurrence/rrule.go:122-127 | UNTIL as eight date digits is midnight of that date |
| ParseMeaning.UntilDateOnly | internal/recurrence/rrule.go:122-127 | and only the digits of a date that exists are read so |
| ParseMeaning.UntilStampOnly | internal/recurrence/rrule.go:120-121 | UNTIL with a time is a date and time that exist, perhaps with a fraction, and Z |
| RuleMeaning.ReparsingKeepsMeaning | internal/recurrence/rrule.go:141-171 | and in every case to a rule with the same expansion on every window |
| Chores.ComputeStatus | internal/chore/status.go:31-91 | status and due date from the rule, the last completion and the day, with the fallbacks for one-off and unreadable rules |
| Chores.AnswersIff | internal/chore/status.go:46-56 | the status computation returns iff the rule, if any, can be expanded to the end of tomorrow, a condition read off rule and creation time |
| Chores.IsDueOnDate | internal/chore/status.go:93-110 | whether the day's expansion has an occurrence |
| ChoreLaws.WithoutRule | internal/chore/status.go:35-52 | a chore without a readable rule is completed once it was ever done and pending until then, on every day, with no due date; on a date it is due iff it has no rule at all |
| Chores.AnswersOnDateIff | internal/chore/status.go:103-109 | the same for IsDueOnDate and the end of the date |
| ChoreLaws.DueDateIsCurrentDay | internal/chore/status.go:54-78 | for a BYDAY that overlooks and masks nothing (DueOrder.DueFollows, a test on its entries) the due date is the greatest scheduled day up to today, and absent iff there is none |
| ChoreLaws.DueAlwaysCurrentIff | internal/chore/status.go:64-73 | for every rule that holds on every day iff that test succeeds |
| ChoreLaws.StatusIs | internal/chore/status.go:60-90 | under that test: not due iff nothing is scheduled yet; completed iff the last completion is not before the due day; else pending on that day and overdue after it |
| ChoreLaws.DueDateMonotone | internal/chore/status.go:54-78 | for a BYDAY in which no three entries of a week undo the due date (DueOrder.NeverUndoes, a test on its entries) it never goes back and never disappears as days pass |
| ChoreLaws.DueNeverGoesBackIff | internal/chore/status.go:54-78 | for every rule that holds on every pair of days iff the test succeeds |
| ChoreLaws.UndoneStaysUndone | internal/chore/status.go:54-90 | under the same test a pending or overdue chore is pending or overdue on every later day without a new completion |
| ChoreLaws.UndoneStaysUndoneIff | internal/chore/status.go:54-90 | for every rule that holds on every pair of days and for every last completion iff the test succeeds |
| ChoreLaws.MayUndoItself | internal/chore/status.go:64-90 | a witness that it can fail: BYDAY=TU,SU,MO, done on Monday, is pending on Tuesday and completed again on Saturday, with an earlier due date |
| DueOrder.NeverUndoesIff | internal/chore/status.go:64-73 | the entry test for the due date going back is the condition on three occurrences that makes it go back from one day to the next |
| DueOrder.DueFollowsIff | internal/chore/status.go:64-73 | the entry test for the due date being right is the two conditions on occurrences that make it wrong on some day |
| ChoreLaws.DueOnIs | internal/chore/status.go:105-109 | where no entry whose weekday is not listed before it is overtaken, IsDueOnDate holds iff the day is scheduled, or the day before is and the chore's time of day is past 23:00:00 |
| ChoreLaws.DueOnAlwaysRightIff | internal/chore/status.go:105-109 | for every chore created at or before 23:00:00 it holds on exactly the scheduled days iff no such entry is overtaken |
| ChoreLaws.DueOnDateIffDueDate | internal/chore/status.go:54-110 | for chores created at or before 23:00:00 whose rule passes both tests it holds iff the due date that day is that day |
| TimeKeys.DateKeyIff | internal/handler/template.go:3208 | two instants have the same date text iff they lie on the same day |
| TimeKeys.TimeKeyInjective | internal/handler/template.go:3238 | the lookup key tells all whole seconds apart |
| TimeKeys.KeysRead | internal/handler/template.go:3208 | the texts of one instant as a reader sees them |
| EventStore.EventTable.ListByDateRange | internal/store/calendar_event.go:135-159 | the rows without rule and parent that start before the range ends and end after it starts |
| EventStore.EventTable.ListRecurring | internal/store/calendar_event.go:161-186 | the rows with a rule and without parent that start before an instant |
| EventStore.EventTable.ListExceptions | internal/store/calendar_event.go:188-211 | the rows whose parent is the given one |
| EventStore.EventTable.ListUpcomingWithReminders | internal/store/calendar_event.go:262-290 | rows not cancelled whose reminder instant lies in the half-open window |
| EventStore.EventTable.GetById | internal/store/calendar_event.go:121-133 | the row with the id, or nothing if there is none |
| EventStore.EventTable.CreateException | internal/store/calendar_event.go:51-80 | one new row with a fresh id, linked to parent and original start, the others unchanged |
| EventStore.EventTable.DeleteExceptions | internal/store/calendar_event.go:213-220 | all and only the parent's exceptions go |
| EventStore.EventTable.UpdateWithRecurrence | internal/store/calendar_event.go:226-248 | only the row with the id changes, in the listed columns |
| EventStore.EventTable.Delete | internal/store/calendar_event.go:292-298 | the row goes, with its exceptions where the foreign key is enforced |
| Merge.ExpandEventsForRange | internal/handler/template.go:3197-3280 | the list is a permutation of the merge of the table, all-day entries first, then by start |
| Merge.BuildExcMap | internal/handler/template.go:3234-3241 | the lookup of exceptions by original start |
| Merge.List | internal/handler/calendar_event.go:129-187 | the second implementation returns the same multiset of events, by start |
| MergeLaws.OccurrenceShownOnce | internal/handler/template.go:3243-3268 | for every parent whose BYDAY has no repeats, in any order, each expanded occurrence is shown exactly once, as its exception or as a copy of the parent, and not at all if cancelled |
| MergeLaws.OneOffShownOnce | internal/handler/template.go:3198-3210 | every row without rule and parent that starts before the window ends and ends after it starts is listed exactly once, any other one-off not at all |
| MergeLaws.OneOffListedOnce | internal/handler/calendar_event.go:129-187 | the same for the second implementation |
| MergeLaws.ShownInOrder | internal/handler/template.go:3272-3277 | all-day events come first, and within each kind the earlier start |
| MergeLaws.ListedInStartOrder | internal/handler/calendar_event.go:180-187 | the second implementation lists by start alone |
| MergeLaws.NothingInvented | internal/handler/template.go:3197-3280 | every entry is such a one-off or the entry of some occurrence |
| MergeLaws.LoadingLosesNothing | internal/store/calendar_event.go:161-186 | loading only parents that start before the window ends gives the same list as loading all |
| MergeLaws.ViewableIff | internal/handler/template.go:3212-3232 | the list of a window is computed iff every readable parent that starts before its end can be expanded |
| MergeLaws.ExceptionListedIff | internal/handler/template.go:3243-3268 | an exception is listed in a window iff the occurrence it replaces lies there, wherever the exception itself lies |
| MergeLaws.AllInsideIff | internal/handler/template.go:3196-3280 | every listed event overlaps the window iff every exception that replaces an occurrence in it does |
| EventEdits.DeleteSingle | internal/handler/template.go:687-709 | a cancelled exception is filed for the chosen date; if the event of the URL or the parent is missing nothing changes |
| EventEdits.UpdateSingle | internal/handler/template.go:588-609 | an exception with the form's data is filed for the chosen date, or the parent is not found and nothing changes |
| EventEdits.UpdateAll | internal/handler/template.go:611-624 | the exceptions go and the series takes the form's data |
| EventEdits.EditedTable | internal/store/calendar_event.go:226-248 | the rows afterwards: the series' row with every column of the form, its exceptions gone, all others as before |
| EventEdits.DeleteAll | internal/handler/template.go:711-720 | the series' row goes, unless the event of the URL is missing |
| EventEdits.ChosenOccurrence | internal/handler/template.go:698-704 | the filed instant is the occurrence of that date iff the series starts on a whole minute |
| EventEdits.OneOccurrenceChanges | internal/handler/template.go:687-709 | re-expanding any window gives the old list with exactly that occurrence removed or replaced if the series starts on a whole minute or no date was given, and the old list unchanged if not |
| EventEdits.UndatedMayMiss | internal/handler/template.go:697-704 | with no date the parent's own start is filed; where a BYDAY leaves its weekday out that is no occurrence and nothing changes |
| EventEdits.UpdateAllChangesOneSeries | internal/handler/template.go:611-624 | afterwards the series shows only copies of its row as the form has it, none if the form has no rule; every other series is unchanged |
| EventEdits.DeleteAllRemovesOneSeries | internal/handler/template.go:711-720 | afterwards the series shows nothing, cascade or not; every other series is unchanged |
| Reminders.Scheduler.CheckCalendarReminders | internal/push/scheduler.go:93-152 | every event whose reminder lies in the next minute and is not recorded is handled and recorded |
| Reminders.Scheduler.CheckChoreDue | internal/push/scheduler.go:154-218 | at minute 0, once per date, if there are chores |
| Reminders.Scheduler.Tick | internal/push/scheduler.go:80-91 | both checks for every household in turn, each with the events, chores and clock it finds |
| Reminders.PushStore.RecordSent | internal/store/push.go:190-201 | recorded once; a second record changes nothing |
| Reminders.PushStore.WasSent | internal/store/push.go:203-215 | whether the key is recorded |
| Reminders.PushStore.CleanupSent | internal/store/push.go:217-224 | exactly the older records go |
| Reminders.KeysDiffer | internal/push/scheduler.go:107-110 | reminders share a record iff household, event and lead time are the same |
| Reminders.NeverAgain | internal/push/scheduler.go:110-117 | once recorded within its time, at most a week long, a notification is not handled again, with cleanups anywhere in the run |
| Reminders.HandledOnceIffHit | internal/push/scheduler.go:93-152 | over any run an unedited event is handled once if some check of the household falls into its minute, and never otherwise |
| Reminders.ExactlyOnce | internal/push/scheduler.go:93-152 | checks at most 60 seconds apart that span the reminder time handle it at exactly one check |
| Reminders.OneSummaryADay | internal/push/scheduler.go:154-218 | over any run a household gets the chore summary of a day once if some check falls in the first minute of an hour of that day while there are chores, and never otherwise |
| Reminders.StepEffect | cmd/gamwich/main.go:200-205 | a cleanup drops only records older than seven days |
| RateLimit.RateLimiter.Allow | internal/middleware/ratelimit.go:49-61 | the entry and the answer of one call |
| RateLimit.RateLimiter.Cleanup | internal/middleware/ratelimit.go:63-74 | exactly the expired entries go |
| RateLimit.AllowedIff | internal/middleware/ratelimit.go:49-61 | over any run from an empty limiter, with other keys and cleanups between, a call is allowed iff it opens a window or fewer calls of its key, refused ones included, came since its window was opened than its limit |
| RateLimit.SweepsInvisible | internal/middleware/ratelimit.go:63-74 | cleanups anywhere in a run change no answer, for any limits and windows |
| RateLimit.FewerThanTwiceTheLimit | internal/middleware/ratelimit.go:49-61 | a closed interval as long as the window holds at most 2 * limit - 1 allowed calls per key |
| RateLimit.BoundIsReached | internal/middleware/ratelimit.go:49-61 | and some run reaches that number |
| MagicLinks.MagicLinkStore.Create | internal/store/magic_link.go:56-92 | earlier codes of the email are invalidated even if the new one cannot be stored; the new one is pending |
| MagicLinks.AskingIssues | internal/store/magic_link.go:56-92 | a code no row has yet is issued, untried and good for 900 seconds; in any case no other row of the email can be used afterwards and other emails keep theirs |
| MagicLinks.MagicLinkStore.GetLatestByEmail | internal/store/magic_link.go:110-124 | the pending row created last, or nothing |
| MagicLinks.Latest | internal/store/magic_link.go:110-124 | nothing iff no row is pending; otherwise a pending row that none was created after |
| MagicLinks.MagicLinkStore.IncrementAttempts | internal/store/magic_link.go:126-142 | the row's count goes up by one and is returned |
| MagicLinks.MagicLinkStore.MarkUsed | internal/store/magic_link.go:144-153 | the row is marked, unless the statement fails |
| MagicLinks.MagicLinkStore.DeleteExpired | internal/store/magic_link.go:155-165 | the expired rows go |
| MagicLinks.CleaningDropsExpired | internal/store/magic_link.go:155-165 | a cleanup drops the expired rows and keeps every other one |
| MagicLinks.ValidateCode | internal/handler/auth.go:187-228 | a code is accepted only if it is the pending one, matches, and has fewer than five wrong tries |
| MagicLinks.WrongCodeIsCounted | internal/handler/auth.go:209-219 | a wrong code adds one try to the row that could be used, and marks it used if that makes five and the statement succeeds; other rows stay |
| MagicLinks.RightOrTriedOut | internal/handler/auth.go:202-227 | a row with five tries is not accepted; otherwise the right code is, iff the statement that marks the row succeeds |
| MagicLinks.NothingToTry | internal/handler/auth.go:188-200 | without an email, a code or a row that can be used nothing changes and nothing is accepted |
| MagicLinks.RunKeepsInv | internal/handler/auth.go:187-228 | in every reachable table an email has at most one live code, no code has more than five tries, and ids are not reused |
| MagicLinks.AcceptedAtMostOnce | internal/handler/auth.go:222-227 | each code is accepted at most once in a run |
| MagicLinks.FiveWrongTriesEndACode | internal/handler/auth.go:202-219 | a code is never accepted after five requests for its email with another code, made while it could be used, even if marking it used failed |
| MagicLinks.AcceptedIsFresh | internal/store/magic_link.go:56-92 | only the right code, issued for that email in the last 900 seconds and tried wrongly fewer than five times, is accepted |
| MagicLinks.GoodCodeIsAccepted | internal/handler/auth.go:187-228 | conversely the right code is accepted for fifteen minutes after any run in which it was not redeemed, no new one was asked for and fewer than five requests tried another code |
| MagicLinks.AskingEndsOlderCodes | internal/store/magic_link.go:58-66 | asking for a new code ends every earlier code of that email, even when the new one cannot be stored |
| Tunnel.Manager.StartLocked | internal/tunnel/tunnel.go:86-115 | launches iff no run is recorded, there is a token and the program is found |
| Tunnel.Manager.SetConfig | internal/tunnel/tunnel.go:140-147 | the configuration is stored, with the default program name, and the old one returned |
| Tunnel.Manager.SwitchOff | internal/tunnel/tunnel.go:151-160 | the status says disabled without a token and stopped otherwise, and both handles are dropped |
| Tunnel.Manager.Observe | internal/tunnel/tunnel.go:273-289 | the effect of a log event on status and failure count |
| Tunnel.Manager.Fail | internal/tunnel/tunnel.go:215-227 | the failure count, the status, and whether the run gives up |
| Tunnel.FailureMeans | internal/tunnel/tunnel.go:213-227 | the tenth failure in a row ends the run in an error, the process's own if it gave one; an earlier one leaves it reconnecting |
| Tunnel.Manager.RunLoop | internal/tunnel/tunnel.go:181-245 | ends at the first row of ten calls of which only the first connected, or when the context is cancelled; sleep n is the n-th backoff; at most ten calls after the last connection |
| Tunnel.Manager.Run | internal/tunnel/tunnel.go:181-245 | the same with the deferred section: afterwards no run is recorded |
| Tunnel.StatusRemembers | internal/tunnel/tunnel.go:273-289 | over the events of one process the status keeps the start time and the last host name announced, through lost and regained connections, and the failure count is reset iff some event was a connection |
| Tunnel.BackoffIs | internal/tunnel/tunnel.go:190-192 | sleep n is min(2^(n-1), 60) seconds, for all n |
| Tunnel.NoConnectionMeansTenCalls | internal/tunnel/tunnel.go:215-225 | with no connection the loop makes exactly ten calls |
| Tunnel.NineSleeps | internal/tunnel/tunnel.go:231-243 | and sleeps 243 seconds in total |
| Supervisor.TraceKeepsInv | internal/tunnel/tunnel.go:87-188 | the invariant on handles, runs, channels and caller holds after every interleaving |
| Supervisor.SingleSupervisor | internal/tunnel/tunnel.go:87-188 | over all interleavings at most one run is live, cancel is set exactly while it lives, each done is closed exactly once, no close hits nil or a closed channel, the status says connecting, connected or reconnecting only while a run lives, and disabled only while none does |
| Supervisor.DisablingStops | internal/tunnel/tunnel.go:139-161 | whenever UpdateConfig with a disabled configuration or without a token is over, and as long as no other call begins, no run is live, neither handle is set, and the status is Disabled without a token and Stopped with one |
| Supervisor.NewTokenRestarts | internal/tunnel/tunnel.go:163-172 | with a new token, or after a configuration without one or disabled, no run is added while the call goes on; afterwards the earlier runs are over and one new run was launched if the program was found |
| Supervisor.SameTokenGoesOn | internal/tunnel/tunnel.go:163-172 | in the remaining case the run goes on and only the configuration changes |
| Supervisor.StopStops | internal/tunnel/tunnel.go:118-136 | when Stop is over, and as long as no other call begins, no run is live and neither handle is set |
| Supervisor.StartLaunches | internal/tunnel/tunnel.go:86-115 | Start launches a run, Connecting and with no failures counted, iff none is live, there is a token and the program is found; with a run nothing changes |
| Supervisor.ConnectedMeansConnected | internal/tunnel/tunnel.go:273-289 | the status says Connected only if the last log event was a connection of the live run |
| Supervisor.SwitchedOffStays | internal/tunnel/tunnel.go:149-161 | from the section in which UpdateConfig switches the tunnel off, no late action of a run changes the status |
| Supervisor.KeepsStatus | internal/tunnel/tunnel.go:181-245 | every action of a live run keeps the status in step with where the run is |
| Supervisor.WaitedRunWindsDown | internal/tunnel/tunnel.go:128-136 | while Stop waits, every action of the cancelled run other than a log event brings it nearer its end |
| Supervisor.WaitIsBounded | internal/tunnel/tunnel.go:128-136 | over every interleaving while Stop waits, the cancelled run takes at most five actions of its own, log events aside |
| Supervisor.WaitNeverSticks | internal/tunnel/tunnel.go:128-136 | and it always has one to take, or Stop can return |

## Left out

- Tunnel: the 10 second limit of Stop and concurrent callers of UpdateConfig; the single-supervisor invariant is not kept there.
- The scheduler's own Start and Stop goroutine, and delivery to subscribers: a handled notification is one log entry, whoever is subscribed.
- `time.Duration` and `int` overflow: instants, intervals and durations are unbounded integers, except that Atoi refuses numbers beyond 64 bits.
- Fractions of a second in stored times: every event, chore and clock reading is whole seconds; only UNTIL carries nanoseconds.
- Time zones: all stored times are UTC, so there is one zone.
- Bytes of malformed UTF-8 in rule strings; text is a sequence of characters. Error values carry their text without Go's quoting.
- A Rule built by hand with an unknown frequency or weekday; Parse never returns one.
- `Describe`.
- ORDER BY in the event queries: both merges sort their result. Between two exceptions for the same original start SQL leaves the winner open; the model takes the later row.
- sort.Slice: replaced by an insertion sort of which only order and multiset are promised.
- SQL text, transactions and errors of statements, except that marking a code used may fail.
- HTTP, forms, templates, websocket broadcasts, and the reminder column that the edit handler sets afterwards.
- Random code generation: the code is a parameter, and may be missing or already taken.
- Log parsing and the cloudflared process: runOnce is a list of log events and an error.
- Status callbacks of the tunnel manager.
- Iteration.Iterator.Next: its Go loop always leaves in its first turn and is written as a conditional.
- Tunnel.Manager.RunLoop: a pause is recorded, not waited for; when timer and context are both ready the context parameter decides.
