/** The yearly law, and what happens to a rule that starts on 29 February. */
module YearlyLaw {
  import opened Wrappers
  import opened Calendar
  import opened Rules
  import opened Iteration
  import opened MonthlyLaw
  import opened LeapYears

  predicate YearlyRule(r: Rule) {
    WellFormed(r) && r.freq == Yearly
  }

  lemma SameMonthOtherYear(mi: int, years: int)
    ensures (mi + 12 * years) / 12 == mi / 12 + years && (mi + 12 * years) % 12 == mi % 12
    ensures mi % 12 != 1 ==> Len(mi + 12 * years) == Len(mi)
    ensures mi % 12 == 1 ==> Len(mi + 12 * years) == if IsLeap(mi / 12 + years) then 29 else 28
  {
    ModTwelve(mi, years);
  }

  lemma AddYearsIsAddMonths(t: int, years: int)
    ensures AddDate(t, years, 0, 0) == AddDate(t, 0, 12 * years, 0)
  {
    hide MonthOf, DayOf, MonthStart;
  }

  lemma LeapDayIsAt(base: int)
    ensures IsLeapDay(base) <==> StartMonth(base) % 12 == 1 && StartDay(base) == 29
  {
    hide MonthOf, DayOf;
  }

  /** Adding years keeps month and day, except that 29 February needs a leap year. */
  lemma YearStep(base: int, mi: int, d: int, years: int)
    requires 1 <= d <= Len(mi)
    ensures AddDate(At(base, mi, d), years, 0, 0)
         == if mi % 12 == 1 && d == 29 && !IsLeap(mi / 12 + years) then At(base, mi + 12 * years + 1, 1)
            else At(base, mi + 12 * years, d)
  {
    hide MonthOf, DayOf, MonthStart, AddDate, At;
    AddYearsIsAddMonths(At(base, mi, d), years);
    AddMonths(base, mi, d, 12 * years);
    SameMonthOtherYear(mi, years);
  }

  /** Month of occurrence number k: the same month, k * INTERVAL years on. */
  function YearMonth(r: Rule, base: int, k: int): int {
    StartMonth(base) + 12 * (k * r.interval)
  }

  lemma NextYearMonth(r: Rule, base: int, k: int)
    ensures YearMonth(r, base, k) + 12 * r.interval == YearMonth(r, base, k + 1)
  {
    hide MonthOf;
    assert (k + 1) * r.interval == k * r.interval + r.interval;
  }

  /** A start other than 29 February: the same month and day in year + k * INTERVAL, for every k. */
  lemma {:induction false} YearlyOccurrences(r: Rule, base: int, k: nat)
    requires YearlyRule(r) && !IsLeapDay(base)
    ensures var t := At(base, YearMonth(r, base, k), StartDay(base));
            Walk(r, base, k) == Some((Cursor(t, 0, true), t))
    ensures StartDay(base) <= Len(YearMonth(r, base, k))
  {
    hide MonthOf, DayOf, Len, At, AddDate, IsLeapDay;
    StartIsAt(base);
    LeapDayIsAt(base);
    ZeroYears(r, base);
    LenInYear(r, base, k);
    if k > 0 {
      YearlyOccurrences(r, base, k - 1);
      LenInYear(r, base, k - 1);
      YearStep(base, YearMonth(r, base, k - 1), StartDay(base), r.interval);
      NextYearMonth(r, base, k - 1);
    }
  }

  /** In years, months and days: k * INTERVAL years on, nothing else changed. */
  lemma YearlyDates(r: Rule, base: int, k: nat)
    requires YearlyRule(r) && !(Month(base) == 2 && Day(base) == 29)
    ensures Occ(r, base, k).Some?
    ensures var t := Occ(r, base, k).value;
            && Year(t) == Year(base) + k * r.interval && Month(t) == Month(base) && Day(t) == Day(base)
            && TimeOfDay(t) == TimeOfDay(base)
  {
    hide MonthOf, DayOf, Len, At, YearMonth, Walk;
    YearlyOccurrences(r, base, k);
    StartIsAt(base);
    LenInYear(r, base, k);
    ReadAt(base, YearMonth(r, base, k), StartDay(base));
  }

  lemma ZeroYears(r: Rule, base: int)
    ensures YearMonth(r, base, 0) == StartMonth(base)
  {
    hide MonthOf;
  }

  lemma LenInYear(r: Rule, base: int, k: int)
    ensures YearMonth(r, base, k) % 12 == StartMonth(base) % 12
    ensures YearMonth(r, base, k) / 12 == StartMonth(base) / 12 + k * r.interval
    ensures StartMonth(base) % 12 != 1 ==> Len(YearMonth(r, base, k)) == Len(StartMonth(base))
    ensures StartMonth(base) % 12 == 1 ==>
              Len(YearMonth(r, base, k)) == if IsLeap(StartMonth(base) / 12 + k * r.interval) then 29 else 28
    ensures !(StartMonth(base) % 12 == 1 && StartDay(base) == 29) ==> StartDay(base) <= Len(YearMonth(r, base, k))
  {
    hide MonthOf, DayOf, Len;
    SameMonthOtherYear(StartMonth(base), k * r.interval);
    SameMonthOtherYear(StartMonth(base), 0);
    StartIsAt(base);
  }

  // ----- 29 February -----

  /** After a non-leap target the skip stands on 1 March and stays there every turn. */
  lemma {:induction false} StaysOnFirstOfMarch(base: int, mi: int, years: int, n: nat)
    requires mi % 12 == 2
    ensures Skipped(At(base, mi, 1), years, 0, n) == At(base, mi + 12 * (n * years), 1)
  {
    hide At, AddDate, Len;
    if n > 0 {
      StaysOnFirstOfMarch(base, mi, years, n - 1);
      var at := mi + 12 * ((n - 1) * years);
      ModTwelve(mi, (n - 1) * years);
      YearStep(base, at, 1, years);
      assert (n - 1) * years + years == n * years;
    }
  }

  /** From 29 February the skip leaves at once if the target year is leap and never otherwise. */
  lemma LeapDaySkip(r: Rule, base: int, mi: int)
    requires YearlyRule(r) && mi % 12 == 1 && Len(mi) == 29
    ensures YearTurns(r.interval, AddDate(At(base, mi, 29), r.interval, 0, 0))
         == if IsLeap(mi / 12 + r.interval) then Some(0) else None
  {
    hide At, AddDate, MonthOf, DayOf, Len, IsLeap;
    var next := AddDate(At(base, mi, 29), r.interval, 0, 0);
    var p := YearFits(r.interval, next);
    YearStep(base, mi, 29, r.interval);
    SameMonthOtherYear(mi, r.interval);
    var to := mi + 12 * r.interval;
    if IsLeap(mi / 12 + r.interval) {
      ReadAt(base, to, 29);
      assert p(0);
    } else {
      assert (to + 1) % 12 == 2 by { hide *; ModTwelve(mi + 1, r.interval); FebruaryThenMarch(mi); }
      forall n: nat ensures !p(n) {
        StaysOnFirstOfMarch(base, to + 1, r.interval, n);
        ReadAt(base, to + 1 + 12 * (n * r.interval), 1);
      }
    }
  }

  lemma FebruaryThenMarch(mi: int)
    requires mi % 12 == 1
    ensures (mi + 1) % 12 == 2
  {
  }

  /** Every one of the first k target years is leap. */
  predicate LeapTargets(r: Rule, base: int, k: nat) {
    forall j :: 1 <= j <= k ==> LeapAt(StartYear(base), r.interval, j)
  }

  /** One advance from occurrence k of such a rule, when all targets so far were leap. */
  lemma LeapDayAdvance(r: Rule, base: int, k: nat)
    requires YearlyRule(r) && IsLeapDay(base) && LeapTargets(r, base, k)
    ensures NextYearly(r, base, At(base, YearMonth(r, base, k), 29))
         == if LeapAt(StartYear(base), r.interval, k + 1) then Some(At(base, YearMonth(r, base, k + 1), 29)) else None
  {
    hide StartMonth, At, AddDate, IsLeapDay, IsLeap, YearMonth, LeapTargets, Len, YearFits;
    var mi := YearMonth(r, base, k);
    LeapDayLen(r, base, k);
    LeapDaySkip(r, base, mi);
    YearStep(base, mi, 29, r.interval);
    NextYearMonth(r, base, k);
    LenInYear(r, base, k);
    assert mi / 12 + r.interval == Stride(StartYear(base), r.interval, k + 1) by {
      assert k * r.interval + r.interval == (k + 1) * r.interval;
    }
  }

  lemma MoreTargets(r: Rule, base: int, k: nat)
    ensures LeapTargets(r, base, k + 1) <==> LeapTargets(r, base, k) && LeapAt(StartYear(base), r.interval, k + 1)
  {
    hide LeapAt, StartYear;
  }

  /**
    A start on 29 February: occurrence k exists exactly when all targets up to it
    are leap years, and is then 29 February of year + k * INTERVAL. Otherwise the
    iterator never returns.
  */
  lemma {:induction false} LeapDayOccurrences(r: Rule, base: int, k: nat)
    requires YearlyRule(r) && IsLeapDay(base)
    ensures var t := At(base, YearMonth(r, base, k), 29);
            Walk(r, base, k) == if LeapTargets(r, base, k) then Some((Cursor(t, 0, true), t)) else None
  {
    hide At, IsLeapDay, LeapTargets, YearMonth, NextYearly, StartYear, LeapAt;
    if k == 0 {
      FirstLeapDay(r, base);
    } else {
      LeapDayOccurrences(r, base, k - 1);
      MoreTargets(r, base, k - 1);
      if LeapTargets(r, base, k - 1) { LeapDayAdvance(r, base, k - 1); }
    }
  }

  lemma FirstLeapDay(r: Rule, base: int)
    requires IsLeapDay(base)
    ensures base == At(base, YearMonth(r, base, 0), 29) && LeapTargets(r, base, 0)
  {
    hide At, MonthOf, DayOf, IsLeapDay;
    StartIsAt(base);
    LeapDayIsAt(base);
    ZeroYears(r, base);
  }

  lemma LeapDayLen(r: Rule, base: int, k: nat)
    requires IsLeapDay(base) && LeapTargets(r, base, k)
    ensures Len(YearMonth(r, base, k)) == 29 && YearMonth(r, base, k) % 12 == 1
  {
    hide MonthOf, DayOf, Len, IsLeap;
    LeapDayIsAt(base);
    StartIsAt(base);
    LenInYear(r, base, k);
    if k == 0 {
      ZeroYears(r, base);
      LenUpTo29(StartMonth(base));
    } else {
      assert LeapAt(StartYear(base), r.interval, k);
    }
  }

  lemma LenUpTo29(mi: int)
    requires mi % 12 == 1
    ensures Len(mi) <= 29
  {
  }

  lemma LeapDayIsLeap(base: int)
    requires IsLeapDay(base)
    ensures IsLeap(StartYear(base))
  {
    hide MonthOf, DayOf, IsLeap;
    LeapDayIsAt(base);
    StartIsAt(base);
  }

  /**
    A leap-day rule can be walked for ever exactly under a condition on INTERVAL and
    the start's year; otherwise it hangs within 55 occurrences.
  */
  lemma LeapDayForeverIff(r: Rule, base: int)
    requires YearlyRule(r) && IsLeapDay(base)
    ensures (forall k: nat :: Occ(r, base, k).Some?) <==> AlwaysLeap(StartYear(base), r.interval)
    ensures Occ(r, base, 55).Some? <==> AlwaysLeap(StartYear(base), r.interval)
  {
    hide AlwaysLeap, LeapAt, At, YearMonth, IsLeapDay, StartYear, Walk;
    LeapDayIsLeap(base);
    AlwaysLeapIff(StartYear(base), r.interval);
    LeapDayOccurrences(r, base, 55);
    if AlwaysLeap(StartYear(base), r.interval) {
      forall k: nat ensures Occ(r, base, k).Some? { LeapDayOccurrences(r, base, k); }
    } else {
      assert !LeapTargets(r, base, 55);
      assert Occ(r, base, 55).None?;
    }
  }
}
