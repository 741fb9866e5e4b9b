/** What the occurrences of every rule have in common, whatever its frequency. */
module SequenceLaws {
  import opened Wrappers
  import opened Calendar
  import opened Rules
  import opened Iteration
  import opened WeeklyLaw
  import opened MonthlyLaw
  import opened YearlyLaw

  /** The one demand on a rule for its occurrences to come in order: BYDAY Monday first, no repeats. */
  predicate Ordered(r: Rule) {
    WellFormed(r) && (r.freq == Weekly ==> MondayFirst(r.byDay))
  }

  /** Days between occurrences of the two frequencies that only add days. */
  function DayStride(r: Rule): int {
    if r.freq == Weekly then 7 * r.interval else r.interval
  }

  predicate PlainRule(r: Rule) {
    WellFormed(r) && (r.freq == Daily || (r.freq == Weekly && |r.byDay| == 0))
  }

  /** Daily, and weekly without BYDAY: occurrence k is k strides after the start. */
  lemma {:induction false} PlainOccurrences(r: Rule, base: int, k: nat)
    requires PlainRule(r)
    ensures var t := base + k * (if r.freq == Weekly then 7 * r.interval else r.interval) * 86400;
            Walk(r, base, k) == Some((Cursor(t, 0, true), t))
  {
    hide AddDate;
    if k > 0 {
      PlainOccurrences(r, base, k - 1);
      AddDays(base + (k - 1) * DayStride(r) * DAY, DayStride(r));
      assert (k - 1) * DayStride(r) + DayStride(r) == k * DayStride(r);
    }
  }

  lemma AtOrdered(base: int, a: int, d: int, b: int, e: int)
    requires a < b && 1 <= d <= Len(a) && 1 <= e
    ensures At(base, a, d) < At(base, b, e)
  {
    hide MonthStart, Len;
    MonthsTile(a);
    MonthStartGrows(a + 1, b);
  }

  ghost predicate StepOk(r: Rule, base: int, k: nat)
    requires WellFormed(r)
  {
    Occ(r, base, k + 1).Some? ==>
      && Occ(r, base, k).Some?
      && TimeOfDay(Occ(r, base, k + 1).value) == TimeOfDay(Occ(r, base, k).value)
      && (Ordered(r) ==> Occ(r, base, k).value < Occ(r, base, k + 1).value)
  }

  lemma PlainStep(r: Rule, base: int, k: nat)
    requires PlainRule(r)
    ensures StepOk(r, base, k)
  {
    hide Walk, DayStride;
    PlainOccurrences(r, base, k);
    PlainOccurrences(r, base, k + 1);
    var s := DayStride(r);
    assert (k + 1) * s == k * s + s;
    StrideLater(base + k * s * DAY, s);
    StrideIsPositive(r);
  }

  lemma StrideIsPositive(r: Rule)
    requires WellFormed(r)
    ensures DayStride(r) >= 1
  {
  }

  lemma StrideLater(t: int, s: int)
    ensures TimeOfDay(t + s * DAY) == TimeOfDay(t) && (s >= 1 ==> t < t + s * DAY)
  {
    ShiftDays(t, s);
  }

  lemma ByDayStep(r: Rule, base: int, k: nat)
    requires ByDayRule(r)
    ensures StepOk(r, base, k)
  {
    hide Walk, MondayFirst, AdvanceByDay;
    OnlyRuleDays(r, base, k);
    OnlyRuleDays(r, base, k + 1);
    if MondayFirst(r.byDay) { IncreasingIffMondayFirst(r, base); }
  }

  lemma MonthlyStep(r: Rule, base: int, k: nat)
    requires MonthlyRule(r)
    ensures StepOk(r, base, k)
  {
    hide MonthOf, DayOf, Len, At, WantedDay, SecondMonth, Ends, NextMonthly;
    if Occ(r, base, k + 1).Some? {
      MonthlyReturnsIff(r, base, k + 1);
      MonthlyOccurrences(r, base, k);
      MonthlyOccurrences(r, base, k + 1);
      VisitedHasDay(r, base, k);
      VisitedHasDay(r, base, k + 1);
      WantedDayBounds(r, base);
      StartIsAt(base);
      var d := if k == 0 then StartDay(base) else WantedDay(r, base);
      ReadAt(base, Visited(r, base, k), d);
      ReadAt(base, Visited(r, base, k + 1), WantedDay(r, base));
      AtOrdered(base, Visited(r, base, k), d, Visited(r, base, k + 1), WantedDay(r, base));
    }
  }

  lemma YearlyStep(r: Rule, base: int, k: nat)
    requires YearlyRule(r)
    ensures StepOk(r, base, k)
  {
    hide MonthOf, DayOf, Len, At, NextYearly, IsLeapDay, YearMonth, IsLeap;
    StartIsAt(base);
    var a, b := YearMonth(r, base, k), YearMonth(r, base, k + 1);
    NextYearMonth(r, base, k);
    if IsLeapDay(base) {
      LeapDayOccurrences(r, base, k);
      LeapDayOccurrences(r, base, k + 1);
      if LeapTargets(r, base, k + 1) {
        LeapDayLen(r, base, k);
        LeapDayLen(r, base, k + 1);
        ReadAt(base, a, 29);
        ReadAt(base, b, 29);
        AtOrdered(base, a, 29, b, 29);
      }
    } else {
      YearlyOccurrences(r, base, k);
      YearlyOccurrences(r, base, k + 1);
      ReadAt(base, a, StartDay(base));
      ReadAt(base, b, StartDay(base));
      AtOrdered(base, a, StartDay(base), b, StartDay(base));
    }
  }

  lemma EveryStep(r: Rule, base: int, k: nat)
    requires WellFormed(r)
    ensures StepOk(r, base, k)
  {
    hide StepOk, Occ;
    if PlainRule(r) {
      PlainStep(r, base, k);
    } else if ByDayRule(r) {
      ByDayStep(r, base, k);
    } else if MonthlyRule(r) {
      MonthlyStep(r, base, k);
    } else {
      YearlyStep(r, base, k);
    }
  }

  lemma FirstOccurrence(r: Rule, base: int)
    requires WellFormed(r)
    ensures Occ(r, base, 0).Some?
    ensures !ByDayRule(r) ==> Occ(r, base, 0).value == base
    ensures Occ(r, base, 0).value >= base && TimeOfDay(Occ(r, base, 0).value) == TimeOfDay(base)
  {
    hide AdvanceByDay;
    if ByDayRule(r) { OnlyRuleDays(r, base, 0); }
  }

  /** Every occurrence keeps the start's time of day, even when BYDAY is out of order. */
  lemma {:induction false} KeepsTimeOfDay(r: Rule, base: int, k: nat)
    requires WellFormed(r)
    ensures Occ(r, base, k).Some? ==> TimeOfDay(Occ(r, base, k).value) == TimeOfDay(base)
  {
    hide Occ;
    if k == 0 {
      FirstOccurrence(r, base);
    } else {
      EveryStep(r, base, k - 1);
      KeepsTimeOfDay(r, base, k - 1);
    }
  }

  lemma {:induction false} LaterIsLater(r: Rule, base: int, j: nat, k: nat)
    requires Ordered(r) && j < k && Occ(r, base, k).Some?
    ensures Occ(r, base, j).Some? && Occ(r, base, j).value < Occ(r, base, k).value
    decreases k
  {
    hide Occ, MondayFirst;
    EveryStep(r, base, k - 1);
    if j < k - 1 { LaterIsLater(r, base, j, k - 1); }
  }

  /** The occurrences of a rule strictly increase exactly when it is ordered, for every frequency. */
  lemma IncreasingIffOrdered(r: Rule, base: int)
    requires WellFormed(r)
    ensures Increasing(r, base) <==> Ordered(r)
  {
    hide Occ, MondayFirst;
    forall j: nat, k: nat | Ordered(r) && j < k && Occ(r, base, j).Some? && Occ(r, base, k).Some?
      ensures Occ(r, base, j).value < Occ(r, base, k).value
    {
      LaterIsLater(r, base, j, k);
    }
    if ByDayRule(r) {
      IncreasingIffMondayFirst(r, base);
    } else {
      assert r.freq == Weekly ==> MondayFirst(r.byDay) by { NoDaysInOrder(r.byDay); }
    }
  }

  /** No occurrence precedes the start. */
  lemma {:induction false} NotBeforeStart(r: Rule, base: int, k: nat)
    requires WellFormed(r)
    ensures Occ(r, base, k).Some? ==> Occ(r, base, k).value >= base
  {
    hide Walk, AdvanceByDay;
    if ByDayRule(r) {
      OnlyRuleDays(r, base, k);
    } else {
      FirstOccurrence(r, base);
      if k > 0 {
        EveryStep(r, base, k - 1);
        NotBeforeStart(r, base, k - 1);
      }
    }
  }

  /** BYDAY, where the iterator uses it, names no weekday twice. */
  predicate NoRepeats(r: Rule) {
    WellFormed(r) && (r.freq == Weekly ==> Distinct(r.byDay))
  }

  ghost predicate NoSharedDate(r: Rule, base: int)
    requires WellFormed(r)
  {
    forall j: nat, k: nat :: j < k && Occ(r, base, j).Some? && Occ(r, base, k).Some?
      ==> DayNumber(Occ(r, base, j).value) != DayNumber(Occ(r, base, k).value)
  }

  /** No two occurrences of a rule share a date exactly when BYDAY has no repeats, in whatever order it is. */
  lemma OnePerDate(r: Rule, base: int)
    requires WellFormed(r)
    ensures NoSharedDate(r, base) <==> NoRepeats(r)
  {
    hide Occ, MondayFirst, DayNumber, Distinct;
    if ByDayRule(r) {
      NoSharedDateIffDistinct(r, base);
    } else {
      assert r.freq == Weekly ==> MondayFirst(r.byDay) && Distinct(r.byDay) by { NoDaysInOrder(r.byDay); }
      forall j: nat, k: nat | j < k && Occ(r, base, j).Some? && Occ(r, base, k).Some?
        ensures DayNumber(Occ(r, base, j).value) != DayNumber(Occ(r, base, k).value)
      {
        LaterIsLater(r, base, j, k);
        KeepsTimeOfDay(r, base, j);
        KeepsTimeOfDay(r, base, k);
        SameDaySameTime(Occ(r, base, j).value, Occ(r, base, k).value);
      }
    }
  }

  lemma SameDaySameTime(s: int, t: int)
    requires TimeOfDay(s) == TimeOfDay(t)
    ensures DayNumber(s) == DayNumber(t) ==> s == t
  {
  }

  /** The start is a day of the rule: always, except for a BYDAY that leaves its weekday out. */
  predicate StartsOnRule(r: Rule, base: int) {
    ByDayRule(r) ==> Weekday(base) in r.byDay
  }

  lemma StartsOnRuleIff(r: Rule, base: int)
    requires WellFormed(r)
    ensures StartsOnRule(r, base) <==> exists k: nat :: Occ(r, base, k) == Some(base)
  {
    hide Occ;
    if ByDayRule(r) {
      if Weekday(base) in r.byDay { var k := MissesNoRuleDay(r, base, base); }
      if k: nat :| Occ(r, base, k) == Some(base) { OnlyRuleDays(r, base, k); }
    } else {
      FirstOccurrence(r, base);
    }
  }

  /** Enough for the occurrences never to go back in time: BYDAY Monday first, repeats allowed. */
  predicate Sorted(r: Rule) {
    WellFormed(r) && (r.freq == Weekly ==> MondaySorted(r.byDay))
  }

  /** For a sorted rule a later occurrence is never earlier, and the iterator reaches it past every former one. */
  lemma NeverGoesBack(r: Rule, base: int, j: nat, k: nat)
    requires Sorted(r) && j < k && Occ(r, base, k).Some?
    ensures Occ(r, base, j).Some? && Occ(r, base, j).value <= Occ(r, base, k).value
  {
    hide Occ, MondayFirst, MondaySorted;
    if ByDayRule(r) {
      SortedNeverGoesBack(r, base, j, k);
    } else {
      assert r.freq == Weekly ==> MondayFirst(r.byDay) by { NoDaysInOrder(r.byDay); }
      LaterIsLater(r, base, j, k);
    }
  }

  lemma NoDaysInOrder(days: seq<DayOfWeek>)
    ensures |days| == 0 ==> MondayFirst(days) && Distinct(days)
  {
  }
}
