/**
  The monthly law: where an advance lands, when the search for a month that has
  the wanted day ends, and which months the whole sequence visits.
*/
module MonthlyLaw {
  import opened Wrappers
  import opened Calendar
  import opened Rules
  import opened Iteration
  import opened LeapYears

  predicate MonthlyRule(r: Rule) {
    WellFormed(r) && r.freq == Monthly
  }

  /** Month index and day of the month of the start. */
  function StartMonth(base: int): int { MonthOf(base / DAY) }
  function StartDay(base: int): int { DayOf(base / DAY) }

  /** Day d of month mi at the start's time of day. */
  function At(base: int, mi: int, d: int): int {
    (MonthStart(mi) + d - 1) * DAY + TimeOfDay(base)
  }

  // ----- adding months -----

  lemma StartIsAt(base: int)
    ensures base == At(base, StartMonth(base), StartDay(base))
    ensures 1 <= StartDay(base) <= Len(StartMonth(base))
  {
    hide MonthOf, DayOf, MonthStart;
    DayRoundTrip(base / DAY);
  }

  lemma ReadAt(base: int, mi: int, d: int)
    requires 1 <= d <= Len(mi)
    ensures MonthOf(At(base, mi, d) / DAY) == mi && DayOf(At(base, mi, d) / DAY) == d
    ensures TimeOfDay(At(base, mi, d)) == TimeOfDay(base)
  {
    hide MonthOf, DayOf, MonthStart, Len;
    ShiftDays(TimeOfDay(base), MonthStart(mi) + d - 1);
    CivilRoundTrip(mi, d);
  }

  /** A month shorter than 31 days is followed by one of 31. */
  lemma ShortThenLong(mi: int)
    requires Len(mi) < 31
    ensures Len(mi + 1) == 31
  {
    var y, m := mi / 12, mi % 12;
    assert m < 11;
    assert (mi + 1) / 12 == y && (mi + 1) % 12 == m + 1;
  }

  /** Adding months: the same day if that month has it, else the overflow into the month after. */
  lemma AddMonths(base: int, mi: int, d: int, n: int)
    requires 1 <= d <= Len(mi)
    ensures var t := AddDate(At(base, mi, d), 0, n, 0);
            t == if d <= Len(mi + n) then At(base, mi + n, d) else At(base, mi + n + 1, d - Len(mi + n))
    ensures d > Len(mi + n) ==> d - Len(mi + n) <= Len(mi + n + 1) == 31
  {
    hide MonthOf, DayOf, MonthStart, Len, AddDate;
    ReadAt(base, mi, d);
    AddDateNormalises(At(base, mi, d), 0, n, 0);
    MonthsTile(mi + n);
    if d > Len(mi + n) { ShortThenLong(mi + n); }
  }

  lemma FitsAt(base: int, mi: int, d: int, day: int)
    requires 1 <= d <= Len(mi)
    ensures Fits(day, At(base, mi, d)) <==> day <= Len(mi)
  {
    hide At, MonthOf, Len, DaysInMonth, MonthLength;
    ReadAt(base, mi, d);
    DaysInMonthOf(At(base, mi, d));
  }

  // ----- one advance from an occurrence that lies on the wanted day -----

  /** The month after mi that a step of some months settles on, for a wanted day. */
  function StepMonth(interval: int, day: int, mi: int): int {
    if day <= Len(mi + interval) then mi + interval else mi + interval + 1
  }

  lemma StepMonthHasDay(interval: int, day: int, mi: int)
    requires 1 <= day <= 31 && interval >= 1
    ensures day <= Len(StepMonth(interval, day, mi)) && StepMonth(interval, day, mi) > mi
  {
    if day > Len(mi + interval) { ShortThenLong(mi + interval); }
  }

  lemma DateInMonth(r: Rule, base: int, t: int, mi: int)
    requires MonthOf(t / DAY) == mi
    ensures Date(Year(t), Month(t), WantedDay(r, base), Hour(base), Minute(base), Second(base))
         == At(base, mi, WantedDay(r, base))
  {
    hide MonthOf, DayOf, MonthStart, WantedDay;
    ClockRoundTrip(base);
    assert 12 * Year(t) + Month(t) - 1 == mi;
  }

  /** From the wanted day the skip loop is not entered: an overflow lands in a month of 31 days. */
  lemma LaterAdvanceNeverSkips(r: Rule, base: int, mi: int)
    requires MonthlyRule(r)
    requires 1 <= WantedDay(r, base) <= Len(mi)
    ensures var day := WantedDay(r, base);
            Fits(day, AddDate(At(base, mi, day), 0, r.interval, 0))
            && NextMonthly(r, base, At(base, mi, day)) == Some(At(base, StepMonth(r.interval, day, mi), day))
  {
    hide At, MonthOf, DayOf, MonthStart, Len, AddDate, Date, Fits, WantedDay;
    var day, to := WantedDay(r, base), mi + r.interval;
    AddMonths(base, mi, day, r.interval);
    var d := if day <= Len(to) then day else day - Len(to);
    var landed := if day <= Len(to) then to else to + 1;
    ReadAt(base, landed, d);
    FitsAt(base, landed, d, day);
    DateInMonth(r, base, At(base, landed, d), landed);
  }

  lemma WantedDayBounds(r: Rule, base: int)
    requires MonthlyRule(r)
    ensures 1 <= WantedDay(r, base) <= 31
  {
    hide DayOf, MonthOf;
    DayRoundTrip(base / DAY);
  }

  // ----- the first advance, where the start's day need not be the wanted day -----

  /** Where the first AddDate lands: the target month, or the one after on overflow. */
  function FirstLanding(r: Rule, base: int): int {
    StepMonth(r.interval, StartDay(base), StartMonth(base))
  }

  /** The landing on day d or what is left of it in the following month. */
  function LandingDay(r: Rule, base: int): int {
    var to := StartMonth(base) + r.interval;
    if StartDay(base) <= Len(to) then StartDay(base) else StartDay(base) - Len(to)
  }

  lemma FirstStep(r: Rule, base: int)
    requires MonthlyRule(r)
    ensures AddDate(base, 0, r.interval, 0) == At(base, FirstLanding(r, base), LandingDay(r, base))
    ensures 1 <= LandingDay(r, base) <= Len(FirstLanding(r, base))
    ensures StartDay(base) > Len(StartMonth(base) + r.interval) ==> Len(FirstLanding(r, base)) == 31
  {
    hide At, MonthOf, DayOf, MonthStart, Len, AddDate;
    StartIsAt(base);
    AddMonths(base, StartMonth(base), StartDay(base), r.interval);
  }

  /** Month number n of the skip counted from the landing, as long as no step overflows. */
  function GridMonth(r: Rule, base: int, n: int): int {
    StartMonth(base) + r.interval + n * r.interval
  }

  /** A month the skip passes over: it has the start's day but not the wanted one. */
  predicate PassedOver(r: Rule, base: int, n: int) {
    StartDay(base) <= Len(GridMonth(r, base, n)) < WantedDay(r, base)
  }

  /** The skip is entered on the first advance. */
  predicate SkipEntered(r: Rule, base: int) {
    WantedDay(r, base) > Len(FirstLanding(r, base))
  }

  lemma SkipEnteredAtGrid(r: Rule, base: int)
    requires MonthlyRule(r)
    ensures SkipEntered(r, base) <==> PassedOver(r, base, 0)
    ensures SkipEntered(r, base) <==> !Fits(WantedDay(r, base), AddDate(base, 0, r.interval, 0))
  {
    hide At, MonthOf, DayOf, MonthStart, Len, AddDate, Fits, WantedDay;
    FirstStep(r, base);
    WantedDayBounds(r, base);
    FitsAt(base, FirstLanding(r, base), LandingDay(r, base), WantedDay(r, base));
  }

  lemma NextGridMonth(r: Rule, base: int, n: int)
    ensures GridMonth(r, base, n) + r.interval == GridMonth(r, base, n + 1)
  {
    hide MonthOf;
    assert (n + 1) * r.interval == n * r.interval + r.interval;
  }

  /** While months are passed over, the skip stands on the start's day of the grid month. */
  lemma {:induction false} SkipOnGrid(r: Rule, base: int, n: nat)
    requires MonthlyRule(r)
    requires forall i :: 0 <= i <= n ==> PassedOver(r, base, i)
    ensures Skipped(AddDate(base, 0, r.interval, 0), 0, r.interval, n)
         == At(base, GridMonth(r, base, n), StartDay(base))
  {
    hide At, MonthOf, DayOf, MonthStart, Len, AddDate, Fits, WantedDay, GridMonth;
    assert PassedOver(r, base, n);
    if n == 0 {
      SkipEnteredAtGrid(r, base);
      FirstStep(r, base);
      assert GridMonth(r, base, 0) == StartMonth(base) + r.interval by { hide *; GridZero(r, base); }
    } else {
      SkipOnGrid(r, base, n - 1);
      StartIsAt(base);
      assert PassedOver(r, base, n - 1);
      NextGridMonth(r, base, n - 1);
      AddMonths(base, GridMonth(r, base, n - 1), StartDay(base), r.interval);
    }
  }

  lemma GridZero(r: Rule, base: int)
    ensures GridMonth(r, base, 0) == StartMonth(base) + r.interval
  {
    hide MonthOf;
  }

  /** The first grid month that is not passed over is where the skip leaves. */
  lemma SkipLeavesAt(r: Rule, base: int, n: nat)
    requires MonthlyRule(r) && n >= 1
    requires !PassedOver(r, base, n) && forall i :: 0 <= i < n ==> PassedOver(r, base, i)
    ensures Fits(WantedDay(r, base), Skipped(AddDate(base, 0, r.interval, 0), 0, r.interval, n))
    ensures MonthOf(Skipped(AddDate(base, 0, r.interval, 0), 0, r.interval, n) / DAY)
         == StepMonth(r.interval, StartDay(base), GridMonth(r, base, n - 1))
  {
    hide At, MonthOf, DayOf, MonthStart, Len, AddDate, Fits, WantedDay, GridMonth;
    var grid, day := GridMonth(r, base, n - 1), StartDay(base);
    SkipOnGrid(r, base, n - 1);
    StartIsAt(base);
    assert PassedOver(r, base, n - 1);
    NextGridMonth(r, base, n - 1);
    WantedDayBounds(r, base);
    AddMonths(base, grid, day, r.interval);
    var to := grid + r.interval;
    var landed, d := if day <= Len(to) then to else to + 1, if day <= Len(to) then day else day - Len(to);
    ReadAt(base, landed, d);
    FitsAt(base, landed, d, WantedDay(r, base));
  }

  lemma SkipStaysAt(r: Rule, base: int, n: nat)
    requires MonthlyRule(r) && forall i :: 0 <= i <= n ==> PassedOver(r, base, i)
    ensures !Fits(WantedDay(r, base), Skipped(AddDate(base, 0, r.interval, 0), 0, r.interval, n))
  {
    hide At, MonthOf, DayOf, MonthStart, Len, AddDate, Fits, WantedDay, GridMonth;
    assert PassedOver(r, base, n);
    SkipOnGrid(r, base, n);
    StartIsAt(base);
    FitsAt(base, GridMonth(r, base, n), StartDay(base), WantedDay(r, base));
  }

  /** The grid months at which the skip may leave. */
  function NotPassed(r: Rule, base: int): nat -> bool {
    (n: nat) => !PassedOver(r, base, n)
  }

  /** The skip leaves at the first grid month that is not passed over, and only there. */
  lemma SkipTurns(r: Rule, base: int)
    requires MonthlyRule(r) && SkipEntered(r, base)
    ensures MonthTurns(r.interval, WantedDay(r, base), AddDate(base, 0, r.interval, 0))
         == LeastFrom(NotPassed(r, base), 1)
  {
    hide AddDate, Fits, WantedDay, GridMonth, PassedOver, SkipEntered;
    var next, day := AddDate(base, 0, r.interval, 0), WantedDay(r, base);
    var fits, out := MonthFits(r.interval, day, next), NotPassed(r, base);
    SkipEnteredAtGrid(r, base);
    var n := LeastFrom(out, 1);
    forall i: nat | 1 <= i && (n.None? || i < n.value)
      ensures !fits(i)
    {
      forall j | 0 <= j <= i ensures PassedOver(r, base, j) { assert j > 0 ==> !out(j); }
      SkipStaysAt(r, base, i);
    }
    if n.Some? {
      forall j | 0 <= j < n.value ensures PassedOver(r, base, j) { assert j > 0 ==> !out(j); }
      assert out(n.value);
      SkipLeavesAt(r, base, n.value);
      assert fits(n.value);
    }
  }

  // ----- when the skip ends -----

  predicate LongMonth(m: int) {
    m == 0 || m == 2 || m == 4 || m == 6 || m == 7 || m == 9 || m == 11
  }

  /** From month a of the year, n steps of b months lead to a month of 31 days. */
  predicate MeetsAfter(a: int, b: int, n: int) {
    LongMonth((a + n * b) % 12)
  }

  /** Stepping round the year by b months from a short month meets one of 31 days within five steps. */
  lemma MeetsLongMonth(a: int, b: int)
    requires 0 <= a < 12 && 1 <= b < 12 && !LongMonth(a)
    ensures exists n :: 1 <= n <= 5 && MeetsAfter(a, b, n)
  {
    hide Round, StepsToLong;
    assert a == 1 || a == 3 || a == 5 || a == 8 || a == 10;
    var n := StepsToLong(a, b);
    StepsAreEnough(a, b);
    RoundIs(a, b, n);
    assert MeetsAfter(a, b, n);
  }

  function StepsToLong(a: int, b: int): int {
    if a == 1 then (if b == 7 then 5 else if b == 2 then 3 else if b == 4 || b == 9 then 2 else 1)
    else if a == 3 then (if b == 5 || b == 7 then 3 else if b == 2 || b == 10 then 2 else 1)
    else if a == 5 then (if b == 5 then 5 else if b == 10 then 3 else if b == 3 || b == 8 then 2 else 1)
    else if a == 8 then (if b == 7 then 4 else if b == 2 || b == 5 || b == 9 then 2 else 1)
    else (if b == 5 then 4 else if b == 3 || b == 7 || b == 10 then 2 else 1)
  }

  /** The month of the year after n steps of b months from month a. */
  function Round(a: int, b: int, n: nat): int {
    if n == 0 then a
    else
      var m := Round(a, b, n - 1);
      if m + b < 12 then m + b else m + b - 12
  }

  lemma {:induction false} RoundIs(a: int, b: int, n: nat)
    requires 0 <= a < 12 && 0 <= b < 12
    ensures Round(a, b, n) == (a + n * b) % 12
  {
    if n > 0 {
      RoundIs(a, b, n - 1);
      OneRound(a + (n - 1) * b, b);
      assert a + (n - 1) * b + b == a + n * b;
    }
  }

  lemma OneRound(x: int, b: int)
    requires 0 <= b < 12
    ensures (x + b) % 12 == if x % 12 + b < 12 then x % 12 + b else x % 12 + b - 12
  {
    var q, m := x / 12, x % 12;
    if m + b < 12 { UniqueRemainder(x + b, 12, q, m + b); } else { UniqueRemainder(x + b, 12, q + 1, m + b - 12); }
  }

  lemma StepsAreEnough(a: int, b: int)
    requires 1 <= b < 12 && (a == 1 || a == 3 || a == 5 || a == 8 || a == 10)
    ensures var n := StepsToLong(a, b); 1 <= n <= 5 && LongMonth(Round(a, b, n))
  {
    if StepsToLong(a, b) == 1 {
      assert Round(a, b, 1) == if a + b < 12 then a + b else a + b - 12;
    } else {
      MoreSteps(a, b);
    }
  }

  lemma MoreSteps(a: int, b: int)
    requires 1 <= b < 12 && (a == 1 || a == 3 || a == 5 || a == 8 || a == 10)
    requires StepsToLong(a, b) > 1
    ensures LongMonth(Round(a, b, StepsToLong(a, b)))
  {
    if b == 2 { assert LongMonth(Round(1, 2, 3)) && LongMonth(Round(3, 2, 2)) && LongMonth(Round(8, 2, 2)); }
    else if b == 3 { assert LongMonth(Round(5, 3, 2)) && LongMonth(Round(10, 3, 2)); }
    else if b == 4 { assert LongMonth(Round(1, 4, 2)); }
    else if b == 5 { assert LongMonth(Round(3, 5, 3)) && LongMonth(Round(5, 5, 5))
      && LongMonth(Round(8, 5, 2)) && LongMonth(Round(10, 5, 4)); }
    else if b == 7 { assert LongMonth(Round(1, 7, 5)) && LongMonth(Round(3, 7, 3))
      && LongMonth(Round(8, 7, 4)) && LongMonth(Round(10, 7, 2)); }
    else if b == 8 { assert LongMonth(Round(5, 8, 2)); }
    else if b == 9 { assert LongMonth(Round(1, 9, 2)) && LongMonth(Round(8, 9, 2)); }
    else { assert LongMonth(Round(3, 10, 2)) && LongMonth(Round(5, 10, 3)) && LongMonth(Round(10, 10, 2)); }
  }

  lemma GridMonthOfYear(r: Rule, base: int, n: int)
    ensures GridMonth(r, base, n) % 12 == (GridMonth(r, base, 0) % 12 + n * (r.interval % 12)) % 12
  {
    hide MonthOf;
    var g, i := GridMonth(r, base, 0), r.interval;
    assert n * i == 12 * (n * (i / 12)) + n * (i % 12) by {
      assert i == 12 * (i / 12) + i % 12;
    }
    ModTwelve(g % 12 + n * (i % 12), g / 12 + n * (i / 12));
    assert GridMonth(r, base, n) == g + n * i;
  }

  lemma ModTwelve(x: int, k: int)
    ensures (x + 12 * k) % 12 == x % 12 && (x + 12 * k) / 12 == x / 12 + k
  {
  }

  /** If 12 does not divide the interval, the skip leaves within five turns. */
  lemma LeavesWithinFive(r: Rule, base: int)
    requires MonthlyRule(r) && r.interval % 12 != 0 && SkipEntered(r, base)
    ensures var n := MonthTurns(r.interval, WantedDay(r, base), AddDate(base, 0, r.interval, 0));
            n.Some? && n.value <= 5
  {
    hide AddDate, Fits, WantedDay, GridMonth, SkipEntered, MonthTurns, MonthOf;
    var a, b := GridMonth(r, base, 0) % 12, r.interval % 12;
    WantedDayBounds(r, base);
    SkipEnteredAtGrid(r, base);
    assert PassedOver(r, base, 0) && !LongMonth(a);
    MeetsLongMonth(a, b);
    var n :| 1 <= n <= 5 && MeetsAfter(a, b, n);
    GridMonthOfYear(r, base, n);
    assert Len(GridMonth(r, base, n)) == 31;
    assert NotPassed(r, base)(n);
    SkipTurns(r, base);
  }

  /** With 12 dividing the interval and the start outside February every grid month looks like the start's. */
  lemma SameMonthEveryYear(r: Rule, base: int, n: int)
    requires r.interval % 12 == 0 && StartMonth(base) % 12 != 1
    ensures PassedOver(r, base, n) <==> WantedDay(r, base) > Len(StartMonth(base))
  {
    hide WantedDay, MonthOf, DayOf;
    StartIsAt(base);
    var k := r.interval / 12;
    assert GridMonth(r, base, n) == StartMonth(base) + 12 * (k + n * k);
    ModTwelve(StartMonth(base), k + n * k);
  }

  /** The start's year, and the years between visits when 12 divides INTERVAL. */
  function StartYear(base: int): int { StartMonth(base) / 12 }
  function YearStride(r: Rule): int { r.interval / 12 }

  /** A February revisited every few years is long exactly in the leap years met. */
  lemma FebruaryGrid(r: Rule, base: int, n: int)
    requires r.interval % 12 == 0 && StartMonth(base) % 12 == 1
    ensures Len(GridMonth(r, base, n)) == if LeapAt(StartYear(base), YearStride(r), n + 1) then 29 else 28
  {
    hide MonthOf, IsLeap;
    var k := r.interval / 12;
    assert GridMonth(r, base, n) == StartMonth(base) + 12 * (k + n * k);
    ModTwelve(StartMonth(base), k + n * k);
    assert Stride(StartYear(base), k, n + 1) == StartYear(base) + (k + n * k);
  }

  /**
    Read off rule and start alone: the month skip is not entered, or it ends. With 12
    dividing INTERVAL only a February can change its length, and it meets one of the
    length needed exactly when the leap years met allow it.
  */
  predicate Ends(r: Rule, base: int) {
    || !SkipEntered(r, base)
    || r.interval % 12 != 0
    || (StartMonth(base) % 12 == 1
        && if WantedDay(r, base) == 29 then !NeverLeap(StartYear(base), YearStride(r))
           else StartDay(base) == 29 && !AlwaysLeap(StartYear(base), YearStride(r)))
  }

  /** Some turn of the skip may leave. */
  ghost predicate Leaves(r: Rule, base: int) {
    exists n: nat :: n >= 1 && NotPassed(r, base)(n)
  }

  /** A February start aiming at day 29: the skip leaves when a leap year is met. */
  lemma LeavesFor29(r: Rule, base: int)
    requires r.interval % 12 == 0 && StartMonth(base) % 12 == 1
    requires PassedOver(r, base, 0) && WantedDay(r, base) == 29
    ensures Leaves(r, base) <==> !NeverLeap(StartYear(base), YearStride(r))
  {
    hide WantedDay, GridMonth, MonthOf, DayOf, Len, LeapAt, NeverLeap, StartYear, YearStride;
    var y, k, out := StartYear(base), YearStride(r), NotPassed(r, base);
    forall n: nat ensures out(n) <==> LeapAt(y, k, n + 1) {
      FebruaryGrid(r, base, 0);
      FebruaryGrid(r, base, n);
    }
    assert !LeapAt(y, k, 1) by { FebruaryGrid(r, base, 0); }
    NeverLeapIff(y, k);
    if !NeverLeap(y, k) {
      var j: int :| 1 <= j && LeapAt(y, k, j);
      assert out(j - 1);
    }
  }

  /** A February start aiming past day 29: the skip leaves from the 29th, when a short February is met. */
  lemma LeavesForLongDay(r: Rule, base: int)
    requires r.interval % 12 == 0 && StartMonth(base) % 12 == 1
    requires PassedOver(r, base, 0) && WantedDay(r, base) >= 30
    ensures Leaves(r, base) <==> StartDay(base) == 29 && !AlwaysLeap(StartYear(base), YearStride(r))
  {
    hide WantedDay, GridMonth, MonthOf, DayOf, LeapAt, AlwaysLeap, YearStride;
    var y, k, out := StartYear(base), YearStride(r), NotPassed(r, base);
    StartIsAt(base);
    forall n: nat ensures out(n) <==> StartDay(base) == 29 && !LeapAt(y, k, n + 1) {
      FebruaryGrid(r, base, 0);
      FebruaryGrid(r, base, n);
    }
    if StartDay(base) == 29 {
      assert LeapAt(y, k, 1) by { FebruaryGrid(r, base, 0); }
      AlwaysLeapIff(y, k);
      if !AlwaysLeap(y, k) {
        var j: int :| 1 <= j && !LeapAt(y, k, j);
        assert out(j - 1);
      }
    }
  }

  /** The first advance returns exactly under that condition. */
  lemma FirstAdvanceReturnsIff(r: Rule, base: int)
    requires MonthlyRule(r)
    ensures NextMonthly(r, base, base).Some? <==> Ends(r, base)
  {
    hide AddDate, Fits, WantedDay, GridMonth, PassedOver, SkipEntered, MonthTurns, MonthOf, StartDay, NeverLeap;
    hide AlwaysLeap;
    SkipEnteredAtGrid(r, base);
    if SkipEntered(r, base) {
      SkipTurns(r, base);
      assert NextMonthly(r, base, base).Some? <==> Leaves(r, base);
      if r.interval % 12 != 0 {
        LeavesWithinFive(r, base);
      } else if StartMonth(base) % 12 != 1 {
        SameMonthEveryYear(r, base, 0);
        forall n: nat ensures !NotPassed(r, base)(n) { SameMonthEveryYear(r, base, n); }
      } else {
        PassedOverIsLong(r, base);
        if WantedDay(r, base) == 29 { LeavesFor29(r, base); } else { LeavesForLongDay(r, base); }
      }
    }
  }

  lemma PassedOverIsLong(r: Rule, base: int)
    requires PassedOver(r, base, 0)
    ensures WantedDay(r, base) >= 29
  {
    hide WantedDay, GridMonth, MonthOf, DayOf, Len;
  }

  /** Day 30 or 31 missing from a start month revisited every year: the skip never ends. */
  lemma NeverEnds(r: Rule, base: int)
    requires MonthlyRule(r) && r.interval % 12 == 0
    requires StartDay(base) <= 28 && WantedDay(r, base) >= 30 && WantedDay(r, base) > Len(StartMonth(base))
    ensures Occ(r, base, 1).None?
  {
    hide AddDate, Fits, WantedDay, MonthOf, DayOf, NextMonthly, NeverLeap, AlwaysLeap;
    FirstAdvanceReturnsIff(r, base);
    SkipEnteredAtGrid(r, base);
    if StartMonth(base) % 12 == 1 {
      FebruaryGrid(r, base, 0);
    } else {
      SameMonthEveryYear(r, base, 0);
    }
    assert Walk(r, base, 0) == Some((Cursor(base, 0, true), base));
  }

  // ----- the whole sequence -----

  /** The month the first advance settles on. */
  ghost function SecondMonth(r: Rule, base: int): int
    requires MonthlyRule(r) && Ends(r, base)
  {
    if !SkipEntered(r, base) then FirstLanding(r, base)
    else
      FirstAdvanceReturnsIff(r, base);
      SkipEnteredAtGrid(r, base);
      SkipTurns(r, base);
      var n := LeastFrom(NotPassed(r, base), 1).value;
      StepMonth(r.interval, StartDay(base), GridMonth(r, base, n - 1))
  }

  /** The month of occurrence number k. */
  ghost function Visited(r: Rule, base: int, k: nat): int
    requires MonthlyRule(r) && Ends(r, base)
  {
    if k == 0 then StartMonth(base)
    else if k == 1 then SecondMonth(r, base)
    else StepMonth(r.interval, WantedDay(r, base), Visited(r, base, k - 1))
  }

  lemma SecondOccurrence(r: Rule, base: int)
    requires MonthlyRule(r) && Ends(r, base)
    ensures WantedDay(r, base) <= Len(SecondMonth(r, base)) && SecondMonth(r, base) > StartMonth(base)
    ensures NextMonthly(r, base, base) == Some(At(base, SecondMonth(r, base), WantedDay(r, base)))
  {
    hide AddDate, Date, Fits, WantedDay, GridMonth, MonthOf, DayOf, At, Len;
    FirstAdvanceReturnsIff(r, base);
    SkipEnteredAtGrid(r, base);
    FirstStep(r, base);
    StartIsAt(base);
    if SkipEntered(r, base) {
      SkipTurns(r, base);
      var n := LeastFrom(NotPassed(r, base), 1).value;
      SkipLeaves(r, base, n);
    } else {
      ReadAt(base, FirstLanding(r, base), LandingDay(r, base));
      DateInMonth(r, base, AddDate(base, 0, r.interval, 0), FirstLanding(r, base));
    }
  }

  lemma SkipLeaves(r: Rule, base: int, n: nat)
    requires MonthlyRule(r) && SkipEntered(r, base) && LeastFrom(NotPassed(r, base), 1) == Some(n)
    ensures var t := Skipped(AddDate(base, 0, r.interval, 0), 0, r.interval, n);
            var mi := StepMonth(r.interval, StartDay(base), GridMonth(r, base, n - 1));
            n >= 1 && WantedDay(r, base) <= Len(mi) && mi > StartMonth(base)
            && Date(Year(t), Month(t), WantedDay(r, base), Hour(base), Minute(base), Second(base))
               == At(base, mi, WantedDay(r, base))
  {
    hide AddDate, Date, Fits, WantedDay, GridMonth, PassedOver, SkipEntered, MonthOf, DayOf, At, Len;
    var out := NotPassed(r, base);
    SkipEnteredAtGrid(r, base);
    forall j | 0 <= j < n ensures PassedOver(r, base, j) { assert j > 0 ==> !out(j); }
    assert out(n);
    SkipLeavesAt(r, base, n);
    var t := Skipped(AddDate(base, 0, r.interval, 0), 0, r.interval, n);
    DaysInMonthOf(t);
    DateInMonth(r, base, t, StepMonth(r.interval, StartDay(base), GridMonth(r, base, n - 1)));
    FitsMeans(WantedDay(r, base), t);
    GridGrows(r, base, n - 1);
  }

  lemma FitsMeans(day: int, t: int)
    ensures Fits(day, t) <==> day <= Len(MonthOf(t / DAY))
  {
    hide MonthOf, Len, DaysInMonth;
    DaysInMonthOf(t);
  }

  lemma GridGrows(r: Rule, base: int, n: nat)
    requires r.interval >= 1
    ensures GridMonth(r, base, n) > StartMonth(base)
  {
    hide MonthOf;
  }

  lemma {:induction false} VisitedHasDay(r: Rule, base: int, k: nat)
    requires MonthlyRule(r) && Ends(r, base)
    ensures k >= 1 ==> WantedDay(r, base) <= Len(Visited(r, base, k))
    ensures k >= 1 ==> Visited(r, base, k - 1) < Visited(r, base, k)
  {
    hide WantedDay, MonthOf, Len, SecondMonth, StepMonth, Ends;
    if k >= 1 {
      WantedDayBounds(r, base);
      SecondOccurrence(r, base);
      VisitedHasDay(r, base, k - 1);
      if k >= 2 {
        StepMonthHasDay(r.interval, WantedDay(r, base), Visited(r, base, k - 1));
      }
    }
  }

  /** Occurrence k >= 1 is the wanted day of month Visited(k), at the start's time of day. */
  lemma {:induction false} MonthlyOccurrences(r: Rule, base: int, k: nat)
    requires MonthlyRule(r) && Ends(r, base)
    ensures var t := if k == 0 then base else At(base, Visited(r, base, k), WantedDay(r, base));
            Walk(r, base, k) == Some((Cursor(t, 0, true), t))
  {
    hide WantedDay, MonthOf, Len, SecondMonth, StepMonth, Ends, At, NextMonthly;
    if k >= 1 {
      MonthlyOccurrences(r, base, k - 1);
      SecondOccurrence(r, base);
      if k >= 2 {
        WantedDayBounds(r, base);
        VisitedHasDay(r, base, k - 1);
        LaterAdvanceNeverSkips(r, base, Visited(r, base, k - 1));
      }
    }
  }

  /** Every occurrence after the start lies on BYMONTHDAY, or without one on the start's day, at its time of day. */
  lemma MonthlyOnWantedDay(r: Rule, base: int, k: nat)
    requires MonthlyRule(r) && k >= 1 && Occ(r, base, k).Some?
    ensures Day(Occ(r, base, k).value) == if r.byMonthDay != 0 then r.byMonthDay else Day(base)
    ensures TimeOfDay(Occ(r, base, k).value) == TimeOfDay(base)
  {
    hide MonthOf, DayOf, Len, SecondMonth, StepMonth, Ends, At, NextMonthly, Walk;
    MonthlyReturnsIff(r, base, k);
    MonthlyOccurrences(r, base, k);
    VisitedHasDay(r, base, k);
    WantedDayBounds(r, base);
    ReadAt(base, Visited(r, base, k), WantedDay(r, base));
  }

  /** A monthly rule can be walked for ever exactly under the checkable condition. */
  lemma MonthlyReturnsIff(r: Rule, base: int, k: nat)
    requires MonthlyRule(r) && k >= 1
    ensures Occ(r, base, k).Some? <==> Ends(r, base)
  {
    hide NextMonthly, Ends;
    if Ends(r, base) {
      MonthlyOccurrences(r, base, k);
    } else {
      FirstAdvanceReturnsIff(r, base);
      assert Walk(r, base, 0) == Some((Cursor(base, 0, true), base));
      HangsOn(r, base, 1, k);
    }
  }

  // ----- which months are visited -----

  lemma OccurrenceMonth(r: Rule, base: int, k: nat)
    requires MonthlyRule(r) && Ends(r, base)
    ensures Occ(r, base, k).Some? && MonthOf(Occ(r, base, k).value / DAY) == Visited(r, base, k)
  {
    hide WantedDay, MonthOf, Len, SecondMonth, StepMonth, Ends, At, NextMonthly, Walk;
    MonthlyOccurrences(r, base, k);
    VisitedHasDay(r, base, k);
    WantedDayBounds(r, base);
    if k >= 1 { ReadAt(base, Visited(r, base, k), WantedDay(r, base)); }
  }

  /** The rule aims at the day the start lies on: no BYMONTHDAY, or the same one. */
  predicate OwnDay(r: Rule, base: int) {
    WantedDay(r, base) == StartDay(base)
  }

  lemma OwnDayNeverSkips(r: Rule, base: int)
    requires MonthlyRule(r) && OwnDay(r, base)
    ensures Ends(r, base)
    ensures SecondMonth(r, base) == StepMonth(r.interval, WantedDay(r, base), StartMonth(base))
  {
    hide WantedDay, MonthOf, DayOf, Len;
    SkipEnteredAtGrid(r, base);
  }

  /** A month that lacks a day is preceded by a month of 31 days. */
  lemma LongBeforeShort(mi: int)
    requires Len(mi) < 31
    ensures Len(mi - 1) == 31
  {
    var y, m := mi / 12, mi % 12;
    assert m >= 1;
    assert (mi - 1) / 12 == y && (mi - 1) % 12 == m - 1;
  }

  /**
    With INTERVAL=1 and the start's own day, every month from the start on that has
    the day is visited: none is missed, up to the start day 31.
  */
  lemma {:induction false} EveryMonthWithTheDay(r: Rule, base: int, mi: int) returns (k: nat)
    requires MonthlyRule(r) && r.interval == 1 && OwnDay(r, base)
    requires mi >= StartMonth(base) && StartDay(base) <= Len(mi)
    ensures Occ(r, base, k) == Some(At(base, mi, StartDay(base)))
    ensures Ends(r, base) && Visited(r, base, k) == mi
    decreases mi - StartMonth(base)
  {
    hide WantedDay, MonthOf, DayOf, Len, At, NextMonthly, SecondMonth, Ends, Walk;
    StartIsAt(base);
    OwnDayNeverSkips(r, base);
    if mi == StartMonth(base) {
      k := 0;
    } else {
      WantedDayBounds(r, base);
      if StartDay(base) > Len(mi - 1) { LongBeforeShort(mi - 1); }
      k := EveryMonthWithTheDay(r, base, if StartDay(base) <= Len(mi - 1) then mi - 1 else mi - 2);
      k := k + 1;
    }
    MonthlyOccurrences(r, base, k);
  }

  /** Conversely each occurrence is the start's day of such a month, so the two sets agree. */
  lemma OnlyMonthsWithTheDay(r: Rule, base: int, k: nat)
    requires MonthlyRule(r) && OwnDay(r, base)
    ensures Ends(r, base)
    ensures var mi := Visited(r, base, k);
            Occ(r, base, k) == Some(At(base, mi, StartDay(base)))
            && mi >= StartMonth(base) && StartDay(base) <= Len(mi)
  {
    hide WantedDay, MonthOf, DayOf, Len, At, NextMonthly, SecondMonth, Ends, Walk;
    OwnDayNeverSkips(r, base);
    StartIsAt(base);
    MonthlyOccurrences(r, base, k);
    VisitedHasDay(r, base, k);
    VisitedFromStart(r, base, k);
  }

  lemma {:induction false} VisitedFromStart(r: Rule, base: int, k: nat)
    requires MonthlyRule(r) && Ends(r, base)
    ensures Visited(r, base, k) >= StartMonth(base) + k
  {
    hide WantedDay, MonthOf, DayOf, Len, SecondMonth, Ends, StepMonth;
    if k > 0 {
      VisitedFromStart(r, base, k - 1);
      VisitedHasDay(r, base, k);
    }
  }

  /** Some advance lands in the month. */
  ghost predicate Visits(r: Rule, base: int, mi: int)
    requires MonthlyRule(r) && Ends(r, base)
  {
    exists k: nat :: k >= 1 && Visited(r, base, k) == mi
  }

  /**
    With INTERVAL=1 and any BYMONTHDAY, months after the start's that have the wanted
    day are all visited, unless the very first one is jumped over: that happens
    exactly when the start's day does not exist there but the wanted day does.
  */
  lemma NoMonthMissedIff(r: Rule, base: int)
    requires MonthlyRule(r) && r.interval == 1
    ensures Ends(r, base)
    ensures (forall mi :: mi > StartMonth(base) && WantedDay(r, base) <= Len(mi) ==> Visits(r, base, mi))
       <==> !(WantedDay(r, base) <= Len(StartMonth(base) + 1) < StartDay(base))
  {
    hide WantedDay, MonthOf, DayOf, Len, SecondMonth, StepMonth;
    var m1 := StartMonth(base) + 1;
    SecondMonthMonthly(r, base);
    if WantedDay(r, base) <= Len(m1) < StartDay(base) {
      assert Visited(r, base, 1) == m1 + 1;
      forall k: nat | k >= 1 ensures Visited(r, base, k) != m1 {
        VisitedGrows(r, base, 1, k);
      }
      assert !Visits(r, base, m1);
    } else {
      forall mi | mi > StartMonth(base) && WantedDay(r, base) <= Len(mi)
        ensures Visits(r, base, mi)
      {
        var k := MonthVisited(r, base, mi);
      }
    }
  }

  lemma {:induction false} VisitedGrows(r: Rule, base: int, j: nat, k: nat)
    requires MonthlyRule(r) && Ends(r, base) && j <= k
    ensures Visited(r, base, j) + (k - j) <= Visited(r, base, k)
    decreases k - j
  {
    hide WantedDay, MonthOf, DayOf, Len, SecondMonth, Ends, StepMonth;
    if j < k {
      VisitedGrows(r, base, j, k - 1);
      VisitedHasDay(r, base, k);
    }
  }

  /** INTERVAL=1: where the first advance goes. */
  lemma SecondMonthMonthly(r: Rule, base: int)
    requires MonthlyRule(r) && r.interval == 1
    ensures Ends(r, base)
    ensures var m1 := StartMonth(base) + 1;
            SecondMonth(r, base) == if WantedDay(r, base) <= Len(m1) && StartDay(base) <= Len(m1) then m1 else m1 + 1
    ensures WantedDay(r, base) <= Len(SecondMonth(r, base))
  {
    hide WantedDay, MonthOf, DayOf, Len, GridMonth;
    SkipEnteredAtGrid(r, base);
    SecondOccurrence(r, base);
    if SkipEntered(r, base) { SkipsOneMonth(r, base); }
  }

  lemma SkipsOneMonth(r: Rule, base: int)
    requires MonthlyRule(r) && r.interval == 1 && SkipEntered(r, base)
    ensures Ends(r, base)
    ensures SecondMonth(r, base) == StartMonth(base) + 2
    ensures StartDay(base) <= Len(StartMonth(base) + 1) < WantedDay(r, base)
  {
    hide WantedDay, MonthOf, DayOf, Len, SkipEntered, MonthTurns;
    var out, m1 := NotPassed(r, base), StartMonth(base) + 1;
    SkipEnteredAtGrid(r, base);
    WantedDayBounds(r, base);
    ShortThenLong(m1);
    assert GridMonth(r, base, 0) == m1 && GridMonth(r, base, 1) == m1 + 1;
    StartIsAt(base);
    assert out(1);
  }

  lemma {:induction false} MonthVisited(r: Rule, base: int, mi: int) returns (k: nat)
    requires MonthlyRule(r) && r.interval == 1 && Ends(r, base)
    requires mi > StartMonth(base) && WantedDay(r, base) <= Len(mi)
    requires !(WantedDay(r, base) <= Len(StartMonth(base) + 1) < StartDay(base))
    ensures k >= 1 && Visited(r, base, k) == mi
    decreases mi - StartMonth(base)
  {
    hide WantedDay, MonthOf, DayOf, Len, SecondMonth, Ends;
    SecondMonthMonthly(r, base);
    WantedDayBounds(r, base);
    if mi == SecondMonth(r, base) {
      k := 1;
    } else {
      if WantedDay(r, base) > Len(mi - 1) { LongBeforeShort(mi - 1); }
      k := MonthVisited(r, base, if WantedDay(r, base) <= Len(mi - 1) then mi - 1 else mi - 2);
      k := k + 1;
    }
  }

  // ----- the k * INTERVAL grid -----

  /** Occurrences 1..k lie exactly j * INTERVAL months after the start's month. */
  ghost predicate OnGrid(r: Rule, base: int, k: nat)
    requires MonthlyRule(r)
  {
    forall j: nat :: 1 <= j <= k ==>
      Occ(r, base, j).Some? && MonthOf(Occ(r, base, j).value / DAY) == StartMonth(base) + j * r.interval
  }

  /**
    That holds exactly when the first target month has the start's day and every
    target month has the wanted day. Days up to 28 always qualify.
  */
  lemma OnGridIff(r: Rule, base: int, k: nat)
    requires MonthlyRule(r) && k >= 1
    ensures OnGrid(r, base, k)
       <==> && StartDay(base) <= Len(StartMonth(base) + r.interval)
            && forall j: nat :: 1 <= j <= k ==> WantedDay(r, base) <= Len(StartMonth(base) + j * r.interval)
  {
    hide WantedDay, MonthOf, DayOf, Len, SecondMonth, Ends, Occ;
    if OnGrid(r, base, k) {
      MonthlyReturnsIff(r, base, 1);
      forall j: nat | 1 <= j <= k
        ensures WantedDay(r, base) <= Len(StartMonth(base) + j * r.interval)
      {
        OccurrenceMonth(r, base, j);
        VisitedHasDay(r, base, j);
      }
      OccurrenceMonth(r, base, 1);
      FirstOffGrid(r, base);
    } else if StartDay(base) <= Len(StartMonth(base) + r.interval) {
      if forall j: nat :: 1 <= j <= k ==> WantedDay(r, base) <= Len(StartMonth(base) + j * r.interval) {
        forall j: nat | 1 <= j <= k
          ensures Occ(r, base, j).Some? && MonthOf(Occ(r, base, j).value / DAY) == StartMonth(base) + j * r.interval
        {
          GridVisited(r, base, j);
          OccurrenceMonth(r, base, j);
        }
      }
    }
  }

  lemma FirstOffGrid(r: Rule, base: int)
    requires MonthlyRule(r) && Ends(r, base) && SecondMonth(r, base) == StartMonth(base) + r.interval
    ensures StartDay(base) <= Len(StartMonth(base) + r.interval)
  {
    hide WantedDay, MonthOf, DayOf, Len;
    WantedDayBounds(r, base);
    FirstStep(r, base);
    SkipEnteredAtGrid(r, base);
  }

  lemma {:induction false} GridVisited(r: Rule, base: int, k: nat)
    requires MonthlyRule(r) && StartDay(base) <= Len(StartMonth(base) + r.interval) && k >= 1
    requires forall j: nat :: 1 <= j <= k ==> WantedDay(r, base) <= Len(StartMonth(base) + j * r.interval)
    ensures Ends(r, base) && Visited(r, base, k) == StartMonth(base) + k * r.interval
  {
    hide WantedDay, MonthOf, DayOf, Len;
    SkipEnteredAtGrid(r, base);
    assert WantedDay(r, base) <= Len(StartMonth(base) + 1 * r.interval);
    if k > 1 {
      GridVisited(r, base, k - 1);
      assert (k - 1) * r.interval + r.interval == k * r.interval;
    }
  }

  /** The law as usually stated: both days at most 28. */
  lemma ShortDaysOnGrid(r: Rule, base: int, k: nat)
    requires MonthlyRule(r) && Day(base) <= 28 && r.byMonthDay <= 28 && k >= 1
    ensures Occ(r, base, k).Some?
    ensures var t := Occ(r, base, k).value;
            && 12 * Year(t) + Month(t) == 12 * Year(base) + Month(base) + k * r.interval
            && Day(t) == (if r.byMonthDay != 0 then r.byMonthDay else Day(base)) && TimeOfDay(t) == TimeOfDay(base)
  {
    hide MonthOf, DayOf, Len, At, SecondMonth, Ends, NextMonthly, Walk;
    GridVisited(r, base, k);
    OccurrenceMonth(r, base, k);
    MonthlyOnWantedDay(r, base, k);
  }

  /** A day above 28 breaks the grid: two months after 31 July of any year comes 31 October. */
  lemma JulyThirtyFirstDrifts(r: Rule, base: int, year: int)
    requires MonthlyRule(r) && r.interval == 2 && r.byMonthDay == 0
    requires StartMonth(base) == 12 * year + 6 && StartDay(base) == 31
    ensures Occ(r, base, 1) == Some(At(base, 12 * year + 9, 31))
  {
    hide MonthOf, DayOf, At, NextMonthly;
    assert (12 * year + 8) / 12 == year && (12 * year + 8) % 12 == 8;
    OwnDayNeverSkips(r, base);
    MonthlyOccurrences(r, base, 1);
  }
}
