/**
  When Expand returns at all: a condition a caller can check before the call, read
  off the rule, the start and the end of the window.
*/
module ReturnLaws {
  import opened Wrappers
  import opened Rules
  import opened Iteration
  import opened LeapYears
  import opened WeeklyLaw
  import opened MonthlyLaw
  import opened YearlyLaw
  import opened SequenceLaws
  import opened Expansion
  import opened ExpandLaws

  /** A yearly rule that starts on 29 February. */
  predicate LeapDayRule(r: Rule, base: int) {
    r.freq == Yearly && IsLeapDay(base)
  }

  /** The iterator can be advanced for ever. */
  predicate NeverHangs(r: Rule, base: int) {
    && (r.freq == Monthly ==> Ends(r, base))
    && (LeapDayRule(r, base) ==> AlwaysLeap(StartYear(base), r.interval))
  }

  lemma NeverHangsIff(r: Rule, base: int)
    requires WellFormed(r)
    ensures NeverHangs(r, base) <==> forall k: nat :: Occ(r, base, k).Some?
  {
    hide Ends, IsLeapDay, AlwaysLeap, Walk, StartYear;
    if PlainRule(r) {
      forall k: nat ensures Occ(r, base, k).Some? { PlainOccurrences(r, base, k); }
    } else if ByDayRule(r) {
      forall k: nat ensures Occ(r, base, k).Some? { OnlyRuleDays(r, base, k); }
    } else if r.freq == Monthly {
      forall k: nat ensures Occ(r, base, k).Some? <==> k == 0 || Ends(r, base) {
        FirstOccurrence(r, base);
        if k > 0 { MonthlyReturnsIff(r, base, k); }
      }
      assert Occ(r, base, 1).Some? <==> Ends(r, base);
    } else if IsLeapDay(base) {
      LeapDayForeverIff(r, base);
    } else {
      forall k: nat ensures Occ(r, base, k).Some? { YearlyOccurrences(r, base, k); }
    }
  }

  /**
    A rule whose iterator hangs still expands if the loop ends first: at the start
    itself for a monthly rule, at some 29 February before the first year that has none
    for a leap-day rule.
  */
  predicate StopsFirst(r: Rule, base: int, rangeEnd: int) {
    if r.freq == Monthly then Stops(r, rangeEnd, 0, base)
    else
      LeapDayRule(r, base)
      && exists j: nat | j < 55 :: LeapTargets(r, base, j) && Stops(r, rangeEnd, j, At(base, YearMonth(r, base, j), 29))
  }

  predicate CanExpand(r: Rule, base: int, rangeEnd: int) {
    NeverHangs(r, base) || StopsFirst(r, base, rangeEnd)
  }

  /** Some occurrence exists at which the loop stops. */
  ghost predicate StopExists(r: Rule, base: int, rangeEnd: int)
    requires WellFormed(r)
  {
    exists j: nat :: j < MAX_ITERATIONS && Occ(r, base, j).Some? && Stops(r, rangeEnd, j, Occ(r, base, j).value)
  }

  /** Expand returns exactly if every advance up to the cap returns or one of those that do stops the loop. */
  lemma ReturnsByStop(r: Rule, base: int, rangeEnd: int)
    requires WellFormed(r)
    ensures Returns(r, base, rangeEnd)
       <==> (forall k: nat :: k < MAX_ITERATIONS ==> Occ(r, base, k).Some?) || StopExists(r, base, rangeEnd)
  {
    hide Walk, Returns, Stops;
    ReturnsIff(r, base, rangeEnd);
    if j: nat :| j < MAX_ITERATIONS && Occ(r, base, j).Some? && Stops(r, rangeEnd, j, Occ(r, base, j).value) {
      forall k: nat | k < MAX_ITERATIONS
        ensures Occ(r, base, k).Some? || StoppedBefore(r, base, rangeEnd, 0, k)
      {
        if Occ(r, base, k).None? && k <= j { HangsOn(r, base, k, j); }
      }
    }
  }

  lemma MonthlyStopFirst(r: Rule, base: int, rangeEnd: int)
    requires MonthlyRule(r) && !Ends(r, base)
    ensures StopExists(r, base, rangeEnd) <==> Stops(r, rangeEnd, 0, base)
  {
    hide Ends, Walk, Stops;
    FirstOccurrence(r, base);
    forall k: nat ensures Occ(r, base, k).Some? <==> k == 0 {
      if k > 0 { MonthlyReturnsIff(r, base, k); }
    }
  }

  lemma LeapDayStopFirst(r: Rule, base: int, rangeEnd: int)
    requires YearlyRule(r) && LeapDayRule(r, base) && !NeverHangs(r, base)
    ensures StopExists(r, base, rangeEnd) <==> StopsFirst(r, base, rangeEnd)
  {
    hide Walk, Stops, At, YearMonth, IsLeapDay, AlwaysLeap, LeapTargets, StartYear;
    LeapDayForeverIff(r, base);
    forall k: nat
      ensures Occ(r, base, k) == if LeapTargets(r, base, k) then Some(At(base, YearMonth(r, base, k), 29)) else None
      ensures Occ(r, base, k).Some? ==> k < 55
    {
      LeapDayOccurrences(r, base, k);
      if k >= 55 { HangsOn(r, base, 55, k); }
    }
  }

  /** Expand returns exactly when that condition holds, for every rule, start and window. */
  lemma ExpandReturnsIff(r: Rule, base: int, rangeEnd: int)
    requires WellFormed(r)
    ensures Returns(r, base, rangeEnd) <==> CanExpand(r, base, rangeEnd)
  {
    hide Returns, StopExists, Ends, IsLeapDay, AlwaysLeap, Walk, StartYear, Stops, At, YearMonth, LeapTargets;
    ReturnsByStop(r, base, rangeEnd);
    NeverHangsIff(r, base);
    if !NeverHangs(r, base) {
      HangsBeforeCap(r, base);
      if r.freq == Monthly { MonthlyStopFirst(r, base, rangeEnd); } else { LeapDayStopFirst(r, base, rangeEnd); }
    }
  }

  lemma HangsBeforeCap(r: Rule, base: int)
    requires WellFormed(r) && !NeverHangs(r, base)
    ensures exists k: nat :: k < MAX_ITERATIONS && Occ(r, base, k).None?
  {
    hide Ends, IsLeapDay, AlwaysLeap, Walk, StartYear;
    if r.freq == Monthly {
      MonthlyReturnsIff(r, base, 1);
    } else {
      LeapDayForeverIff(r, base);
      assert Occ(r, base, 55).None?;
    }
  }

  /** Only monthly rules and leap-day rules can keep Expand from returning. */
  lemma OthersAlwaysReturn(r: Rule, base: int, rangeEnd: int)
    requires WellFormed(r) && r.freq != Monthly && !LeapDayRule(r, base)
    ensures Returns(r, base, rangeEnd)
  {
    hide Returns, LeapDayRule;
    ExpandReturnsIff(r, base, rangeEnd);
  }
}
