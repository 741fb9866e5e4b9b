/**
  The recurrence iterator: what one advance does to its fields, as a function
  on values, and the mutable iterator that computes it.

  Two of the advances contain a loop that skips months or years and may run
  forever. The function answers None exactly then; the methods may be called
  exactly when it answers Some.
*/
module Iteration {
  import opened Wrappers
  import opened Calendar
  import opened Rules

  const MAX_ITERATIONS := 10000

  /** The fields an advance changes. */
  datatype Cursor = Cursor(current: int, weekDayIdx: nat, started: bool)

  // ----- stateless helpers -----

  function WeekStart(t: int): int {
    var offset := Weekday(t) - 1;
    var monday := AddDate(t, 0, 0, -(if offset < 0 then offset + 7 else offset));
    Date(Year(monday), Month(monday), Day(monday), 0, 0, 0)
  }

  /** Day 0 of the following month. */
  function DaysInMonth(year: int, month: int): int {
    Day(Date(year, month + 1, 0, 0, 0, 0))
  }

  /** Days from Monday to a weekday. */
  function MondayOffset(w: DayOfWeek): (o: int)
    ensures 0 <= o < 7
  {
    if w == 0 then 6 else w - 1
  }

  /** The instant a BYDAY entry names in the week whose Monday is given. */
  function Candidate(base: int, monday: int, w: DayOfWeek): int {
    Date(Year(monday), Month(monday), Day(monday) + MondayOffset(w), Hour(base), Minute(base), Second(base))
  }

  lemma WeekStartIsMonday(t: int)
    ensures WeekStart(t) == (t / DAY - t / DAY % 7) * DAY
  {
    hide MonthOf, DayOf, MonthStart;
    var o := t / DAY % 7;
    assert o == if Weekday(t) - 1 < 0 then Weekday(t) + 6 else Weekday(t) - 1;
    AddDays(t, -o);
    DateOfDay(t - o * DAY, 0, 0, 0, 0);
    assert (t - o * DAY) / DAY == t / DAY - o;
  }

  lemma CandidateIs(base: int, monday: int, w: DayOfWeek)
    ensures Candidate(base, monday, w) == (monday / DAY + MondayOffset(w)) * DAY + TimeOfDay(base)
  {
    hide MonthOf, DayOf, MonthStart, MondayOffset;
    DateOfDay(monday, MondayOffset(w), Hour(base), Minute(base), Second(base));
    ClockRoundTrip(base);
  }

  /** daysInMonth agrees with the usual table of month lengths. */
  lemma DaysInMonthIsTable(year: int, month: int)
    requires 1 <= month <= 12
    ensures DaysInMonth(year, month) == MonthLength(year, month - 1)
    ensures DaysInMonth(year, month)
         == if month == 2 then (if year % 4 == 0 && (year % 100 != 0 || year % 400 == 0) then 29 else 28)
            else if month == 4 || month == 6 || month == 9 || month == 11 then 30 else 31
  {
    hide MonthOf, DayOf, MonthStart;
    var mi := 12 * year + month - 1;
    LastDayOfMonth(mi);
    assert Date(year, month + 1, 0, 0, 0, 0) == (MonthStart(mi + 1) - 1) * DAY;
  }

  lemma DaysInMonthOf(t: int)
    ensures DaysInMonth(Year(t), Month(t)) == Len(MonthOf(t / DAY))
  {
    DaysInMonthIsTable(Year(t), Month(t));
  }

  // ----- weekly by day -----

  /** First BYDAY position from i on whose candidate is not before the start; |byDay| if none. */
  function FirstInWeek(r: Rule, base: int, monday: int, i: nat): (j: nat)
    requires i <= |r.byDay|
    ensures i <= j <= |r.byDay|
    ensures j < |r.byDay| ==> Candidate(base, monday, r.byDay[j]) >= base
    ensures forall k :: i <= k < j ==> Candidate(base, monday, r.byDay[k]) < base
    decreases |r.byDay| - i
  {
    if i == |r.byDay| || Candidate(base, monday, r.byDay[i]) >= base then i
    else FirstInWeek(r, base, monday, i + 1)
  }

  function NextWeek(r: Rule, monday: int): int {
    WeekStart(AddDate(monday, 0, 0, 7 * r.interval))
  }

  lemma NextWeekIs(r: Rule, monday: int)
    ensures NextWeek(r, monday) == (monday / DAY - monday / DAY % 7 + 7 * r.interval) * DAY
  {
    hide MonthOf, DayOf, MonthStart;
    AddDays(monday, 7 * r.interval);
    WeekStartIsMonday(monday + 7 * r.interval * DAY);
    ShiftDays(monday, 7 * r.interval);
    ShiftWeeks(monday / DAY, r.interval);
  }

  /** A week in which some day lies before the start is not a week after the start. */
  lemma SkippedWeekIsEarly(r: Rule, base: int, monday: int, w: DayOfWeek)
    requires WellFormed(r) && Candidate(base, monday, w) < base
    ensures monday < base + DAY && monday < NextWeek(r, monday)
  {
    CandidateIs(base, monday, w);
    NextWeekIs(r, monday);
  }

  /** The week and position that findNextByDay settles on. */
  function FindNext(r: Rule, base: int, monday: int, i: nat): (int, nat)
    requires WellFormed(r) && i < |r.byDay|
    decreases base + DAY - monday
  {
    var j := FirstInWeek(r, base, monday, i);
    if j < |r.byDay| then (monday, j)
    else
      SkippedWeekIsEarly(r, base, monday, r.byDay[i]);
      FindNext(r, base, NextWeek(r, monday), 0)
  }

  function AdvanceByDay(r: Rule, base: int, c: Cursor): (Cursor, int)
    requires WellFormed(r) && |r.byDay| > 0
  {
    var (monday, j) :=
      if !c.started then FindNext(r, base, WeekStart(base), 0)
      else if c.weekDayIdx + 1 >= |r.byDay| then FindNext(r, base, NextWeek(r, c.current), 0)
      else FindNext(r, base, c.current, c.weekDayIdx + 1);
    FindNextInRange(r, base, c);
    (Cursor(monday, j, true), Candidate(base, monday, r.byDay[j]))
  }

  lemma {:induction false} FindNextYields(r: Rule, base: int, monday: int, i: nat)
    requires WellFormed(r) && i < |r.byDay|
    ensures FindNext(r, base, monday, i).1 < |r.byDay|
    ensures Candidate(base, FindNext(r, base, monday, i).0, r.byDay[FindNext(r, base, monday, i).1]) >= base
    decreases base + DAY - monday
  {
    if FirstInWeek(r, base, monday, i) == |r.byDay| {
      SkippedWeekIsEarly(r, base, monday, r.byDay[i]);
      FindNextYields(r, base, NextWeek(r, monday), 0);
    }
  }

  lemma FindNextInRange(r: Rule, base: int, c: Cursor)
    requires WellFormed(r) && |r.byDay| > 0
    ensures FindNext(r, base, WeekStart(base), 0).1 < |r.byDay|
    ensures FindNext(r, base, NextWeek(r, c.current), 0).1 < |r.byDay|
    ensures c.weekDayIdx + 1 < |r.byDay| ==> FindNext(r, base, c.current, c.weekDayIdx + 1).1 < |r.byDay|
  {
    hide MonthOf, DayOf, MonthStart;
    FindNextYields(r, base, WeekStart(base), 0);
    FindNextYields(r, base, NextWeek(r, c.current), 0);
    if c.weekDayIdx + 1 < |r.byDay| {
      FindNextYields(r, base, c.current, c.weekDayIdx + 1);
    }
  }

  // ----- the two skip loops -----

  /** Where a skip loop is after n turns, each adding the same years and months. */
  function Skipped(t: int, years: int, months: int, n: nat): int {
    if n == 0 then t else AddDate(Skipped(t, years, months, n - 1), years, months, 0)
  }

  /** The month of t has the wanted day. */
  predicate Fits(day: int, t: int) {
    day <= DaysInMonth(Year(t), Month(t))
  }

  /** The least number from lo on that satisfies p. */
  ghost function Least(p: nat -> bool, lo: nat, hi: nat): (n: nat)
    requires lo <= hi && p(hi)
    ensures lo <= n <= hi && p(n) && forall m: nat :: lo <= m < n ==> !p(m)
    decreases hi - lo
  {
    if p(lo) then lo else Least(p, lo + 1, hi)
  }

  ghost function LeastFrom(p: nat -> bool, lo: nat): (n: Option<nat>)
    ensures n.Some? ==> lo <= n.value && p(n.value) && forall m: nat :: lo <= m < n.value ==> !p(m)
    ensures n.None? ==> forall m: nat :: lo <= m ==> !p(m)
  {
    if exists m: nat :: lo <= m && p(m) then
      var m: nat :| lo <= m && p(m);
      Some(Least(p, lo, m))
    else None
  }

  /** Whether the month skip may leave after a number of turns. */
  function MonthFits(interval: int, day: int, t: int): nat -> bool {
    (n: nat) => Fits(day, Skipped(t, 0, interval, n))
  }

  /** Whether the 29 February skip may leave after a number of turns. */
  function YearFits(interval: int, t: int): nat -> bool {
    (n: nat) => Day(Skipped(t, interval, 0, n)) == 29
  }

  /** The turn at which the month skip leaves (its test comes after the step) or None if it never does. */
  ghost function MonthTurns(interval: int, day: int, t: int): Option<nat> {
    LeastFrom(MonthFits(interval, day, t), 1)
  }

  /** The turn at which the 29 February skip leaves (its test comes first) or None if it never does. */
  ghost function YearTurns(interval: int, t: int): Option<nat> {
    LeastFrom(YearFits(interval, t), 0)
  }

  /** The day of the month a monthly rule aims at. */
  function WantedDay(r: Rule, base: int): int {
    if r.byMonthDay == 0 then Day(base) else r.byMonthDay
  }

  /** The instant in the month that a monthly advance settles on. */
  ghost function MonthlyTarget(r: Rule, base: int, current: int): Option<int> {
    var day := WantedDay(r, base);
    var next := AddDate(current, 0, r.interval, 0);
    if Fits(day, next) then Some(next)
    else
      var n := MonthTurns(r.interval, day, next);
      if n.None? then None else Some(Skipped(next, 0, r.interval, n.value))
  }

  ghost function NextMonthly(r: Rule, base: int, current: int): Option<int> {
    var target := MonthlyTarget(r, base, current);
    if target.None? then None
    else Some(Date(Year(target.value), Month(target.value), WantedDay(r, base), Hour(base), Minute(base), Second(base)))
  }

  predicate IsLeapDay(t: int) {
    Month(t) == 2 && Day(t) == 29
  }

  ghost function NextYearly(r: Rule, base: int, current: int): Option<int> {
    var next := AddDate(current, r.interval, 0, 0);
    if !IsLeapDay(base) then Some(next)
    else
      var n := YearTurns(r.interval, next);
      if n.None? then None else Some(Skipped(next, r.interval, 0, n.value))
  }

  // ----- one advance -----

  /** The new fields and the instant returned, or None when the advance never returns. */
  ghost function Advance(r: Rule, base: int, c: Cursor): Option<(Cursor, int)>
    requires WellFormed(r)
  {
    if r.freq == Weekly && |r.byDay| > 0 then Some(AdvanceByDay(r, base, c))
    else if !c.started then Some((c.(started := true), c.current))
    else
      var next := match r.freq
        case Daily => Some(AddDate(c.current, 0, 0, r.interval))
        case Weekly => Some(AddDate(c.current, 0, 0, 7 * r.interval))
        case Monthly => NextMonthly(r, base, c.current)
        case Yearly => NextYearly(r, base, c.current);
      if next.None? then None else Some((c.(current := next.value), next.value))
  }

  /** The fields and the instant after advance number k, counted from 0. */
  ghost function Walk(r: Rule, base: int, k: nat): Option<(Cursor, int)>
    requires WellFormed(r)
  {
    if k == 0 then Advance(r, base, Cursor(base, 0, false))
    else
      var prev := Walk(r, base, k - 1);
      if prev.None? then None else Advance(r, base, prev.value.0)
  }

  /** Occurrence number k of a rule, counted from 0; None if the iterator hangs before it. */
  ghost function Occ(r: Rule, base: int, k: nat): Option<int>
    requires WellFormed(r)
  {
    var w := Walk(r, base, k);
    if w.None? then None else Some(w.value.1)
  }

  /** An advance that never returns is the last one. */
  lemma {:induction false} HangsOn(r: Rule, base: int, j: nat, k: nat)
    requires WellFormed(r) && j <= k && Walk(r, base, j).None?
    ensures Walk(r, base, k).None?
    decreases k
  {
    hide Advance;
    if j < k { HangsOn(r, base, j, k - 1); }
  }

  /** Occurrences come strictly later one after the other. */
  ghost predicate Increasing(r: Rule, base: int)
    requires WellFormed(r)
  {
    forall j: nat, k: nat :: j < k && Occ(r, base, j).Some? && Occ(r, base, k).Some?
      ==> Occ(r, base, j).value < Occ(r, base, k).value
  }

  /** The fields before advance number k; None if an earlier advance hangs. */
  ghost function CursorBefore(r: Rule, base: int, k: nat): Option<Cursor>
    requires WellFormed(r)
  {
    if k == 0 then Some(Cursor(base, 0, false))
    else if Walk(r, base, k - 1).None? then None
    else Some(Walk(r, base, k - 1).value.0)
  }

  class Iterator {
    const rule: Rule
    const baseStart: int
    var current: int
    var weekDayIdx: nat
    var started: bool
    var count: nat

    constructor (rule: Rule, start: int)
      ensures this.rule == rule && baseStart == start && count == 0
      ensures View() == Cursor(start, 0, false)
    {
      this.rule, baseStart, current := rule, start, start;
      weekDayIdx, started, count := 0, false, 0;
    }

    function View(): Cursor
      reads this
    {
      Cursor(current, weekDayIdx, started)
    }

    /** Returns the zero time once 10000 advances were made. */
    method Next() returns (t: int)
      requires WellFormed(rule)
      requires count < MAX_ITERATIONS ==> Advance(rule, baseStart, View()).Some?
      modifies this
      ensures old(count) >= MAX_ITERATIONS ==> t == 0 && unchanged(this)
      ensures old(count) < MAX_ITERATIONS ==>
                count == old(count) + 1 && old(Advance(rule, baseStart, View())) == Some((View(), t))
    {
      if count < MAX_ITERATIONS {
        count := count + 1;
        t := AdvanceOnce();
        if t == 0 {
          return 0;
        }
        return t;
      }
      return 0;
    }

    method AdvanceOnce() returns (t: int)
      requires WellFormed(rule) && Advance(rule, baseStart, View()).Some?
      modifies this
      ensures count == old(count) && old(Advance(rule, baseStart, View())) == Some((View(), t))
    {
      match rule.freq {
        case Daily => t := AdvanceDaily();
        case Weekly =>
          if |rule.byDay| > 0 {
            t := AdvanceWeeklyByDay();
          } else {
            t := AdvanceWeeklySimple();
          }
        case Monthly => t := AdvanceMonthly();
        case Yearly => t := AdvanceYearly();
      }
    }

    method AdvanceDaily() returns (t: int)
      requires WellFormed(rule) && rule.freq == Daily
      modifies this
      ensures count == old(count) && old(Advance(rule, baseStart, View())) == Some((View(), t))
    {
      if !started {
        started := true;
        return current;
      }
      current := AddDate(current, 0, 0, rule.interval);
      return current;
    }

    method AdvanceWeeklySimple() returns (t: int)
      requires WellFormed(rule) && rule.freq == Weekly && |rule.byDay| == 0
      modifies this
      ensures count == old(count) && old(Advance(rule, baseStart, View())) == Some((View(), t))
    {
      if !started {
        started := true;
        return current;
      }
      current := AddDate(current, 0, 0, 7 * rule.interval);
      return current;
    }

    method AdvanceWeeklyByDay() returns (t: int)
      requires WellFormed(rule) && |rule.byDay| > 0
      modifies this
      ensures count == old(count) && old(AdvanceByDay(rule, baseStart, View())) == (View(), t)
    {
      hide MonthOf, DayOf, MonthStart;
      if !started {
        started := true;
        current := WeekStart(baseStart);
        weekDayIdx := 0;
        t := FindNextByDay();
        return;
      }
      weekDayIdx := weekDayIdx + 1;
      if weekDayIdx >= |rule.byDay| {
        current := AddDate(current, 0, 0, 7 * rule.interval);
        current := WeekStart(current);
        weekDayIdx := 0;
      }
      t := FindNextByDay();
    }

    method FindNextByDay() returns (t: int)
      requires WellFormed(rule) && weekDayIdx < |rule.byDay|
      modifies this
      ensures count == old(count) && started == old(started)
      ensures (current, weekDayIdx) == old(FindNext(rule, baseStart, current, weekDayIdx))
      ensures weekDayIdx < |rule.byDay| && t == Candidate(baseStart, current, rule.byDay[weekDayIdx])
      decreases baseStart + DAY - current
    {
      hide MonthOf, DayOf, MonthStart;
      while weekDayIdx < |rule.byDay|
        invariant old(weekDayIdx) <= weekDayIdx <= |rule.byDay|
        invariant current == old(current) && started == old(started) && count == old(count)
        invariant FirstInWeek(rule, baseStart, current, weekDayIdx)
               == FirstInWeek(rule, baseStart, current, old(weekDayIdx))
      {
        var day: int := rule.byDay[weekDayIdx];
        var mondayOfWeek := current;
        var offset := day - 1;
        if offset < 0 {
          offset := offset + 7;
        }
        var candidate := Date(
          Year(mondayOfWeek), Month(mondayOfWeek), Day(mondayOfWeek) + offset,
          Hour(baseStart), Minute(baseStart), Second(baseStart));
        if !(candidate < baseStart) {
          return candidate;
        }
        weekDayIdx := weekDayIdx + 1;
      }
      SkippedWeekIsEarly(rule, baseStart, current, rule.byDay[old(weekDayIdx)]);
      current := AddDate(current, 0, 0, 7 * rule.interval);
      current := WeekStart(current);
      weekDayIdx := 0;
      t := FindNextByDay();
    }

    method AdvanceMonthly() returns (t: int)
      requires WellFormed(rule) && rule.freq == Monthly && Advance(rule, baseStart, View()).Some?
      modifies this
      ensures count == old(count) && old(Advance(rule, baseStart, View())) == Some((View(), t))
    {
      hide MonthOf, DayOf, MonthStart, AddDate, Date, DaysInMonth;
      if !started {
        started := true;
        return current;
      }
      var day := rule.byMonthDay;
      if day == 0 {
        day := Day(baseStart);
      }
      var next := AddDate(current, 0, rule.interval, 0);
      var year, month := Year(next), Month(next);
      var lastDay := DaysInMonth(year, month);
      var actualDay := day;
      if actualDay > lastDay {
        ghost var first, turns := next, MonthTurns(rule.interval, day, next).value;
        ghost var n: nat := 0;
        while true
          invariant n < turns && next == Skipped(first, 0, rule.interval, n)
          decreases turns - n
        {
          next := AddDate(next, 0, rule.interval, 0);
          n := n + 1;
          year, month := Year(next), Month(next);
          lastDay := DaysInMonth(year, month);
          if day <= lastDay {
            actualDay := day;
            assert MonthFits(rule.interval, day, first)(n);
            break;
          }
        }
      }
      current := Date(year, month, actualDay, Hour(baseStart), Minute(baseStart), Second(baseStart));
      return current;
    }

    method AdvanceYearly() returns (t: int)
      requires WellFormed(rule) && rule.freq == Yearly && Advance(rule, baseStart, View()).Some?
      modifies this
      ensures count == old(count) && old(Advance(rule, baseStart, View())) == Some((View(), t))
    {
      hide MonthOf, DayOf, MonthStart, AddDate, Date, DaysInMonth;
      if !started {
        started := true;
        return current;
      }
      var next := AddDate(current, rule.interval, 0, 0);
      if Month(baseStart) == 2 && Day(baseStart) == 29 {
        ghost var first, turns := next, YearTurns(rule.interval, next).value;
        ghost var n: nat := 0;
        while Day(next) != 29
          invariant n <= turns && next == Skipped(first, rule.interval, 0, n)
          decreases turns - n
        {
          assert !YearFits(rule.interval, first)(n);
          next := AddDate(next, rule.interval, 0, 0);
          n := n + 1;
        }
        assert YearFits(rule.interval, first)(n);
      }
      current := next;
      return current;
    }
  }
}
