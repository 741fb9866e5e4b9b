/**
  When Expand loses an occurrence: a condition on the BYDAY list, COUNT and UNTIL
  that can be read off the rule and the start.
*/
module OrderLaw {
  import opened Wrappers
  import opened Calendar
  import opened Rules
  import opened Iteration
  import opened WeeklyLaw
  import opened SequenceLaws
  import opened Expansion
  import opened ExpandLaws
  import opened WindowLaw
  import opened ReturnLaws

  /**
    Entry j of BYDAY is listed after a later weekday i, and its day in week w of the
    walk is not before the start and within COUNT, the cap and UNTIL.
  */
  predicate Overtaken(r: Rule, base: int, w: nat, i: nat, j: nat) {
    && i < j < |r.byDay|
    && MondayOffset(r.byDay[i]) > MondayOffset(r.byDay[j])
    && Slot(r, base, w, j) >= base
    && Counted(r, Rank(r, base, w, j))
    && !PastUntil(r, Slot(r, base, w, j))
  }

  /** No entry is overtaken in the start's own week or the first one after it. */
  predicate ListedInOrder(r: Rule, base: int) {
    r.freq == Weekly ==>
      forall w: nat, i: nat, j: nat | w <= 1 && i < |r.byDay| && j < |r.byDay| :: !Overtaken(r, base, w, i, j)
  }

  lemma OvertakenGoesBack(r: Rule, base: int, w: nat, i: nat, j: nat)
    requires ByDayRule(r) && Overtaken(r, base, w, i, j)
    ensures var k, l := Rank(r, base, w, i), Rank(r, base, w, j);
            && k < l && Allowed(r, base, l) && Position(r, base, l) == (w, j)
            && Occ(r, base, l) == Some(Slot(r, base, w, j))
            && Occ(r, base, k).Some? && Occ(r, base, k).value > Occ(r, base, l).value
  {
    hide Slot, Rank, Occ, PastUntil, MondayOffset, Monday;
    SlotOrder(r, base, w, i, w, j);
    RankOccurs(r, base, w, i);
    RankOccurs(r, base, w, j);
    var k, l := Rank(r, base, w, i), Rank(r, base, w, j);
    if l < k { PositionsAdvance(r, base, l, k); }
  }

  /** The index of an occurrence is the rank of its position. */
  lemma IndexIsRank(r: Rule, base: int, k: nat)
    requires ByDayRule(r)
    ensures var p := Position(r, base, k);
            Slot(r, base, p.0, p.1) >= base && k == Rank(r, base, p.0, p.1)
              && Occ(r, base, k) == Some(Slot(r, base, p.0, p.1))
  {
    hide Slot, Rank, Occ, Monday;
    var p := Position(r, base, k);
    SettledIsNotEarly(r, base, k);
    OccurrenceIsSlot(r, base, k);
    RankOccurs(r, base, p.0, p.1);
    var l := Rank(r, base, p.0, p.1);
    if k < l { PositionsAdvance(r, base, k, l); }
    if l < k { PositionsAdvance(r, base, l, k); }
  }

  /** The same entry in the first week after the start's has a smaller rank than in later ones. */
  lemma RankGrows(r: Rule, base: int, w: nat, j: nat)
    requires w >= 2 && j < |r.byDay|
    ensures Rank(r, base, 1, j) <= Rank(r, base, w, j)
  {
    hide Open;
    assert (w - 1) * |r.byDay| >= 0;
  }

  /** What overtakes an entry in a later week overtakes it in the first week after the start's. */
  lemma OvertakenEarlier(r: Rule, base: int, w: nat, i: nat, j: nat)
    requires ByDayRule(r) && w >= 2 && Overtaken(r, base, w, i, j)
    ensures Overtaken(r, base, 1, i, j)
  {
    hide Slot, Rank, PastUntil, MondayOffset, Monday;
    RankGrows(r, base, w, j);
    LaterWeeksStart(r, base, 1, j);
    SlotOrder(r, base, 1, j, w, j);
    if PastUntil(r, Slot(r, base, 1, j)) { EarlierPastUntil(r, Slot(r, base, 1, j), Slot(r, base, w, j)); }
  }

  /** Two occurrences out of order are entries of one week. */
  lemma GoingBackIsOvertaken(r: Rule, base: int, k: nat, l: nat)
    requires ByDayRule(r) && k < l && Allowed(r, base, l)
    requires Occ(r, base, k).Some? && Occ(r, base, k).value > Occ(r, base, l).value
    ensures var p, q := Position(r, base, k), Position(r, base, l);
            p.0 == q.0 && Overtaken(r, base, q.0, p.1, q.1)
  {
    hide Slot, Rank, Occ, PastUntil, MondayOffset, Monday;
    var p, q := Position(r, base, k), Position(r, base, l);
    IndexIsRank(r, base, k);
    IndexIsRank(r, base, l);
    PositionsAdvance(r, base, k, l);
    SlotOrder(r, base, p.0, p.1, q.0, q.1);
  }

  /** The occurrences of a rule are in order exactly when BYDAY is listed in order, as far as the rule reaches. */
  lemma InOrderIff(r: Rule, base: int)
    requires WellFormed(r)
    ensures InOrder(r, base) <==> ListedInOrder(r, base)
  {
    hide Overtaken, Occ, PastUntil, Counted, Rank;
    if !ByDayRule(r) {
      NoEntryOvertaken(r, base);
      SortedIsInOrder(r, base) by { NoDaysInOrder(r.byDay); }
    } else {
      if !InOrder(r, base) {
        var k: nat, l: nat :| k < l && Allowed(r, base, l) && Occ(r, base, k).Some?
          && Occ(r, base, k).value > Occ(r, base, l).value;
        GoingBackIsOvertaken(r, base, k, l);
        var p, q := Position(r, base, k), Position(r, base, l);
        if q.0 >= 2 { OvertakenEarlier(r, base, q.0, p.1, q.1); }
      }
      if !ListedInOrder(r, base) {
        var w: nat, i: nat, j: nat :| w <= 1 && i < |r.byDay| && j < |r.byDay| && Overtaken(r, base, w, i, j);
        OvertakenGoesBack(r, base, w, i, j);
      }
    }
  }

  // ----- first entries, and entries the loop can get to -----

  /** The weekday of entry j is not listed before it. */
  predicate FirstEntry(r: Rule, j: nat)
    requires j < |r.byDay|
  {
    forall e: nat | e < j :: r.byDay[e] != r.byDay[j]
  }

  /** No entry up to j lies past UNTIL in week w. */
  predicate WithinUntil(r: Rule, base: int, w: nat, j: nat)
    requires j < |r.byDay|
  {
    forall e: nat | e <= j :: Slot(r, base, w, e) >= base ==> !PastUntil(r, Slot(r, base, w, e))
  }

  predicate FirstsListedInOrder(r: Rule, base: int) {
    r.freq == Weekly ==>
      forall w: nat, i: nat, j: nat | w <= 1 && i < |r.byDay| && j < |r.byDay| ::
        !(Overtaken(r, base, w, i, j) && FirstEntry(r, j))
  }

  predicate ReachedListedInOrder(r: Rule, base: int) {
    r.freq == Weekly ==>
      forall w: nat, i: nat, j: nat | w <= 1 && i < |r.byDay| && j < |r.byDay| ::
        !(Overtaken(r, base, w, i, j) && WithinUntil(r, base, w, j))
  }

  predicate FirstsReachedListedInOrder(r: Rule, base: int) {
    r.freq == Weekly ==>
      forall w: nat, i: nat, j: nat | w <= 1 && i < |r.byDay| && j < |r.byDay| ::
        !(Overtaken(r, base, w, i, j) && FirstEntry(r, j) && WithinUntil(r, base, w, j))
  }

  /** An occurrence is the first of its instant exactly when its entry is the first of its weekday. */
  lemma FirstAtIff(r: Rule, base: int, w: nat, j: nat)
    requires ByDayRule(r) && j < |r.byDay| && Slot(r, base, w, j) >= base
    ensures FirstAt(r, base, Rank(r, base, w, j)) <==> FirstEntry(r, j)
  {
    hide Slot, Rank, Occ, Monday, MondayOffset;
    var l := Rank(r, base, w, j);
    RankOccurs(r, base, w, j);
    if FirstEntry(r, j) {
      forall m: nat | m < l ensures Occ(r, base, m) != Occ(r, base, l) {
        IndexIsRank(r, base, m);
        PositionsAdvance(r, base, m, l);
        var p := Position(r, base, m);
        SlotsShareDate(r, base, p.0, p.1, w, j);
      }
    } else {
      var e: nat :| e < j && r.byDay[e] == r.byDay[j];
      SlotOrder(r, base, w, e, w, j);
      RankOccurs(r, base, w, e);
      var m := Rank(r, base, w, e);
      if l < m { PositionsAdvance(r, base, l, m); }
    }
  }

  /** The loop can get to an entry exactly when it is counted and nothing up to it in its week lies past UNTIL. */
  lemma ReachedIff(r: Rule, base: int, w: nat, j: nat)
    requires ByDayRule(r) && j < |r.byDay| && Slot(r, base, w, j) >= base
    ensures Reached(r, base, Rank(r, base, w, j)) <==> Counted(r, Rank(r, base, w, j)) && WithinUntil(r, base, w, j)
  {
    hide Slot, Rank, Occ, Monday, PastUntil, Counted;
    var l := Rank(r, base, w, j);
    RankOccurs(r, base, w, j);
    if WithinUntil(r, base, w, j) {
      forall m: nat | m <= l ensures Occ(r, base, m).Some? && !PastUntil(r, Occ(r, base, m).value) {
        IndexIsRank(r, base, m);
        var p := Position(r, base, m);
        if m < l {
          PositionsAdvance(r, base, m, l);
          SlotOrder(r, base, p.0, p.1, w, j);
          if p.0 < w && PastUntil(r, Slot(r, base, p.0, p.1)) {
            EarlierPastUntil(r, Slot(r, base, p.0, p.1), Slot(r, base, w, j));
          }
        }
      }
    }
    if Reached(r, base, l) {
      forall e: nat | e <= j && Slot(r, base, w, e) >= base ensures !PastUntil(r, Slot(r, base, w, e)) {
        RankOccurs(r, base, w, e);
        var m := Rank(r, base, w, e);
        if l < m { PositionsAdvance(r, base, l, m); }
      }
    }
  }

  lemma WithinUntilEarlier(r: Rule, base: int, w: nat, j: nat)
    requires ByDayRule(r) && w >= 2 && j < |r.byDay| && WithinUntil(r, base, w, j)
    ensures WithinUntil(r, base, 1, j)
  {
    hide Slot, PastUntil, Monday;
    forall e: nat | e <= j ensures !PastUntil(r, Slot(r, base, 1, e)) {
      LaterWeeksStart(r, base, w, e);
      SlotOrder(r, base, 1, e, w, e);
      if PastUntil(r, Slot(r, base, 1, e)) { EarlierPastUntil(r, Slot(r, base, 1, e), Slot(r, base, w, e)); }
    }
  }

  /** Out of order in some week means out of order in one of the first two. */
  lemma GoingBackEarly(r: Rule, base: int, k: nat, l: nat) returns (w: nat, i: nat, j: nat)
    requires ByDayRule(r) && k < l && Allowed(r, base, l)
    requires Occ(r, base, k).Some? && Occ(r, base, k).value > Occ(r, base, l).value
    ensures w <= 1 && i < j < |r.byDay| && Overtaken(r, base, w, i, j)
    ensures FirstAt(r, base, l) ==> FirstEntry(r, j)
    ensures Reached(r, base, l) ==> WithinUntil(r, base, w, j)
  {
    hide Slot, Rank, Occ, PastUntil, MondayOffset, Monday, FirstAt, Reached, FirstEntry, WithinUntil;
    GoingBackIsOvertaken(r, base, k, l);
    var p, q := Position(r, base, k), Position(r, base, l);
    IndexIsRank(r, base, l);
    FirstAtIff(r, base, q.0, q.1);
    ReachedIff(r, base, q.0, q.1);
    w, i, j := if q.0 >= 2 then 1 else q.0, p.1, q.1;
    if q.0 >= 2 {
      OvertakenEarlier(r, base, q.0, i, j);
      if Reached(r, base, l) { WithinUntilEarlier(r, base, q.0, j); }
    }
  }

  lemma NothingGoesBack(r: Rule, base: int)
    requires WellFormed(r) && !ByDayRule(r)
    ensures InOrder(r, base) && FirstsInOrder(r, base) && ReachedInOrder(r, base) && FirstsReachedInOrder(r, base)
    ensures FirstsListedInOrder(r, base) && ReachedListedInOrder(r, base) && FirstsReachedListedInOrder(r, base)
  {
    hide InOrder, FirstsInOrder, ReachedInOrder, FirstsReachedInOrder, Overtaken, FirstEntry, WithinUntil;
    NoEntryOvertaken(r, base);
    SortedIsInOrder(r, base);
    InOrderFirsts(r, base);
    InOrderIsReachedInOrder(r, base);
    FirstsReached(r, base);
  }

  /** First occurrences are in order exactly when no first entry is overtaken. */
  lemma FirstsInOrderIff(r: Rule, base: int)
    requires WellFormed(r)
    ensures FirstsInOrder(r, base) <==> FirstsListedInOrder(r, base)
  {
    hide Overtaken, Occ, PastUntil, Counted, Rank, FirstAt, FirstEntry, Slot;
    if !ByDayRule(r) {
      NothingGoesBack(r, base);
    } else {
      if !FirstsInOrder(r, base) {
        var k: nat, l: nat :| k < l && Allowed(r, base, l) && FirstAt(r, base, l) && Occ(r, base, k).Some?
          && Occ(r, base, k).value > Occ(r, base, l).value;
        var w, i, j := GoingBackEarly(r, base, k, l);
      }
      if !FirstsListedInOrder(r, base) {
        var w: nat, i: nat, j: nat :| w <= 1 && i < |r.byDay| && j < |r.byDay|
          && Overtaken(r, base, w, i, j) && FirstEntry(r, j);
        OvertakenGoesBack(r, base, w, i, j);
        OvertakenIsOpen(r, base, w, i, j);
        FirstAtIff(r, base, w, j);
      }
    }
  }

  lemma OvertakenIsOpen(r: Rule, base: int, w: nat, i: nat, j: nat)
    requires Overtaken(r, base, w, i, j)
    ensures i < j < |r.byDay| && Slot(r, base, w, j) >= base && Counted(r, Rank(r, base, w, j))
  {
    hide Slot, Rank;
  }

  /** Reached occurrences are in order exactly when no entry the loop can get to is overtaken. */
  lemma ReachedInOrderIff(r: Rule, base: int)
    requires WellFormed(r)
    ensures ReachedInOrder(r, base) <==> ReachedListedInOrder(r, base)
  {
    hide Overtaken, Occ, PastUntil, Counted, Rank, WithinUntil, Slot;
    if !ByDayRule(r) {
      NothingGoesBack(r, base);
    } else {
      if !ReachedInOrder(r, base) {
        var k: nat, l: nat :| k < l && Reached(r, base, l) && Occ(r, base, k).Some?
          && Occ(r, base, k).value > Occ(r, base, l).value;
        ReachedIsAllowed(r, base, l);
        var w, i, j := GoingBackEarly(r, base, k, l);
      }
      if !ReachedListedInOrder(r, base) {
        var w: nat, i: nat, j: nat :| w <= 1 && i < |r.byDay| && j < |r.byDay|
          && Overtaken(r, base, w, i, j) && WithinUntil(r, base, w, j);
        OvertakenGoesBack(r, base, w, i, j);
        OvertakenIsOpen(r, base, w, i, j);
        ReachedIff(r, base, w, j);
      }
    }
  }

  /** And first reached occurrences exactly when no first entry the loop can get to is. */
  lemma FirstsReachedInOrderIff(r: Rule, base: int)
    requires WellFormed(r)
    ensures FirstsReachedInOrder(r, base) <==> FirstsReachedListedInOrder(r, base)
  {
    hide Overtaken, Occ, PastUntil, Counted, Rank, WithinUntil, Slot, FirstAt, FirstEntry;
    if !ByDayRule(r) {
      NothingGoesBack(r, base);
    } else {
      if !FirstsReachedInOrder(r, base) {
        var k: nat, l: nat :| k < l && Reached(r, base, l) && FirstAt(r, base, l) && Occ(r, base, k).Some?
          && Occ(r, base, k).value > Occ(r, base, l).value;
        ReachedIsAllowed(r, base, l);
        var w, i, j := GoingBackEarly(r, base, k, l);
      }
      if !FirstsReachedListedInOrder(r, base) {
        var w: nat, i: nat, j: nat :| w <= 1 && i < |r.byDay| && j < |r.byDay|
          && Overtaken(r, base, w, i, j) && FirstEntry(r, j) && WithinUntil(r, base, w, j);
        OvertakenGoesBack(r, base, w, i, j);
        OvertakenIsOpen(r, base, w, i, j);
        ReachedIff(r, base, w, j);
        FirstAtIff(r, base, w, j);
      }
    }
  }

  /** For every rule, windows agree exactly when no first entry the loop can get to is overtaken. */
  lemma WindowsAgreeIff(r: Rule, base: int)
    requires WellFormed(r) && base > 0
    ensures WindowsAgree(r, base) <==> FirstsReachedListedInOrder(r, base)
  {
    hide WindowsAgree, FirstsReachedInOrder, FirstsReachedListedInOrder;
    WindowsAgreeIffFirsts(r, base);
    FirstsReachedInOrderIff(r, base);
  }

  /** For every rule, windows nest exactly when no entry the loop can get to is overtaken. */
  lemma WindowsNestIff(r: Rule, base: int)
    requires WellFormed(r) && base > 0
    ensures WindowsNest(r, base) <==> ReachedListedInOrder(r, base)
  {
    hide WindowsNest, ReachedInOrder, ReachedListedInOrder;
    WindowsNestIffReached(r, base);
    ReachedInOrderIff(r, base);
  }

  /**
    Membership in plain numbers, where no first entry is overtaken: the occurrence has
    an index below 10000 and COUNT, starts at or before UNTIL and before the window
    ends, and ends after the window starts.
  */
  lemma ExpandMeans(r: Rule, base: int, duration: int, rangeStart: int, rangeEnd: int, start: int, end: int)
    requires WellFormed(r) && FirstsListedInOrder(r, base) && base > 0 && Returns(r, base, rangeEnd)
    ensures Occurrence(start, end) in Answer(r, base, duration, rangeStart, rangeEnd)
       <==> && end == start + duration
            && (exists k: nat :: k < 10000 && (r.count != 0 ==> k < r.count) && Occ(r, base, k) == Some(start))
            && (r.until.Some? ==> start <= r.until.value.sec)
            && start < rangeEnd && end > rangeStart
  {
    hide Occ, Answer, Returns, FirstsListedInOrder, FirstsInOrder, PastUntil, Overlaps;
    FirstsInOrderIff(r, base);
    var o := Occurrence(start, end);
    AnswerIsAllowed(r, base, duration, rangeStart, rangeEnd, o);
    if InWindow(r, base, duration, rangeStart, rangeEnd, start) {
      var k: nat :| Kept(r, base, duration, rangeStart, rangeEnd, k) && Occ(r, base, k).value == start;
      KeptIs(r, base, duration, rangeStart, rangeEnd, k);
    }
    if k: nat :| k < 10000 && (r.count != 0 ==> k < r.count) && Occ(r, base, k) == Some(start) {
      KeptIs(r, base, duration, rangeStart, rangeEnd, k);
    }
  }

  /** On every window the answer holds exactly the allowed occurrences that overlap it, listed once or more. */
  ghost predicate ExactAsSet(r: Rule, base: int)
    requires WellFormed(r)
  {
    forall duration: int, a: int, b: int, o: Occurrence :: Returns(r, base, b) ==>
      (o in Answer(r, base, duration, a, b)
       <==> InWindow(r, base, duration, a, b, o.start) && o.end == o.start + duration)
  }

  /** So it does exactly when no first entry is overtaken, which is less than BYDAY listed in order. */
  lemma ExactAsSetIff(r: Rule, base: int)
    requires WellFormed(r) && base > 0
    ensures ExactAsSet(r, base) <==> FirstsListedInOrder(r, base)
  {
    hide Occ, Answer, Returns, FirstAt, FirstsListedInOrder, PastUntil;
    FirstsInOrderIff(r, base);
    if FirstsInOrder(r, base) {
      forall duration: int, a: int, b: int, o: Occurrence | Returns(r, base, b)
        ensures o in Answer(r, base, duration, a, b)
           <==> InWindow(r, base, duration, a, b, o.start) && o.end == o.start + duration
      {
        AnswerIsAllowed(r, base, duration, a, b, o);
      }
    } else {
      if !ByDayRule(r) { NothingGoesBack(r, base); }
      var k: nat, l: nat :| k < l && Allowed(r, base, l) && FirstAt(r, base, l) && Occ(r, base, k).Some?
        && Occ(r, base, k).value > Occ(r, base, l).value;
      var t := Occ(r, base, l).value;
      OthersAlwaysReturn(r, base, t + 1);
      OvertakenIsMissing(r, base, k, l, 1, t, Occurrence(t, t + 1));
      assert Kept(r, base, 1, t, t + 1, l);
    }
  }

  lemma NoEntryOvertaken(r: Rule, base: int)
    requires WellFormed(r) && !ByDayRule(r)
    ensures Sorted(r) && ListedInOrder(r, base)
  {
  }

  /**
    Expand is exact on every window exactly when no BYDAY entry is overtaken: for every
    rule, with or without COUNT and UNTIL.
  */
  lemma ExactIff(r: Rule, base: int)
    requires WellFormed(r) && base > 0
    ensures ExactEverywhere(r, base) <==> ListedInOrder(r, base)
  {
    hide ExactEverywhere, InOrder, ListedInOrder;
    ExactIffInOrder(r, base);
    InOrderIff(r, base);
  }

  // ----- the exit at UNTIL -----

  /**
    An entry overtaken by a weekday that lies past UNTIL is lost on every window:
    the loop ends at the later day, and the earlier one, still allowed, comes after it.
  */
  lemma UntilHides(r: Rule, base: int, w: nat, i: nat, j: nat, duration: int, a: int, b: int, o: Occurrence)
    requires ByDayRule(r) && NoRepeats(r) && Overtaken(r, base, w, i, j) && PastUntil(r, Slot(r, base, w, i))
    requires Returns(r, base, b) && o in Answer(r, base, duration, a, b)
    ensures o.start != Slot(r, base, w, j) && Allowed(r, base, Rank(r, base, w, j))
  {
    hide Slot, Rank, Occ, PastUntil, MondayOffset, Monday, Run, NoRepeats;
    var k, l := Rank(r, base, w, i), Rank(r, base, w, j);
    SlotOrder(r, base, w, i, w, j);
    RankOccurs(r, base, w, i);
    RankOccurs(r, base, w, j);
    if l < k { PositionsAdvance(r, base, l, k); }
    RunWindowFree(r, base, duration, a, b, 0);
    RunHolds(r, base, duration, a, b, 0, k, o);
    OnePerDate(r, base);
  }

  /** Friday before Monday, from Wednesday 3 January 2024, 10:00, until the 9th. */
  function FridayMonday(): Rule {
    Rule(Weekly, 1, [5, 1], 0, 0, Some(Instant(Date(2024, 1, 9, 0, 0, 0), 0)))
  }

  /** A witness: Monday 8 January lies before UNTIL and is in no answer, because Friday the 12th comes first. */
  lemma MondayIsLost(duration: int, a: int, b: int, o: Occurrence)
    requires Returns(FridayMonday(), Date(2024, 1, 3, 10, 0, 0), b)
    requires o in Answer(FridayMonday(), Date(2024, 1, 3, 10, 0, 0), duration, a, b)
    ensures InRule(FridayMonday(), Date(2024, 1, 3, 10, 0, 0), Date(2024, 1, 8, 10, 0, 0))
    ensures !PastUntil(FridayMonday(), Date(2024, 1, 8, 10, 0, 0))
    ensures o.start != Date(2024, 1, 8, 10, 0, 0)
  {
    hide Date, Slot, Returns, Answer, InRule, Overtaken;
    var r, base := FridayMonday(), Date(2024, 1, 3, 10, 0, 0);
    January(3, 10);
    January(8, 10);
    January(9, 0);
    FridayOvertakes(r, base);
    UntilHides(r, base, 1, 0, 1, duration, a, b, o);
  }

  lemma January(d: int, h: int)
    ensures Date(2024, 1, d, h, 0, 0) == (738884 + d) * DAY + h * 3600
  {
    hide MonthStart;
    YearStartIs(2024);
  }

  lemma FridayOvertakes(r: Rule, base: int)
    requires base == 738887 * DAY + 36000
    requires r == Rule(Weekly, 1, [5, 1], 0, 0, Some(Instant(738893 * DAY, 0)))
    ensures Overtaken(r, base, 1, 0, 1)
    ensures Slot(r, base, 1, 0) == 738896 * DAY + 36000 && Slot(r, base, 1, 1) == 738892 * DAY + 36000
    ensures InRule(r, base, 738892 * DAY + 36000)
  {
    assert WeekNumber(base) == 105555 && TimeOfDay(base) == 36000;
    hide WeekNumber, TimeOfDay;
    assert Slot(r, base, 0, 0) == 738889 * DAY + 36000 && Slot(r, base, 0, 1) == 738885 * DAY + 36000;
    hide Monday;
    assert Open(r, base, 1) == 1;
    LaterWeeksStart(r, base, 1, 1);
    SlotInRule(r, base, 1, 1);
  }
}
