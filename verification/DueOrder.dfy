/**
  Which orders of BYDAY make the due date of a chore go back or be wrong: first as
  conditions on the days of the occurrences, then on the BYDAY entries of one week,
  where they can be checked before the call.
*/
module DueOrder {
  import opened Calendar
  import opened Rules
  import opened Iteration
  import opened WeeklyLaw
  import opened Expansion
  import opened ExpandLaws
  import opened WindowLaw
  import opened OrderLaw

  /** The day number of an occurrence. */
  ghost function OccDay(r: Rule, base: int, n: nat): int
    requires WellFormed(r)
  {
    if Occ(r, base, n).Some? then DayNumber(Occ(r, base, n).value) else 0
  }

  // ----- conditions on the days of the occurrences -----

  /** After l the days stay at or below top up to n. */
  ghost predicate StaysBelow(r: Rule, base: int, l: nat, n: nat, top: int)
    requires WellFormed(r)
  {
    forall i: nat :: l < i <= n ==> OccDay(r, base, i) <= top
  }

  /** After l no reached day is below top unless one above top came before it. */
  ghost predicate LastBelow(r: Rule, base: int, l: nat, top: int)
    requires WellFormed(r)
  {
    forall n: nat :: n > l && Reached(r, base, n) && StaysBelow(r, base, l, n, top) ==> OccDay(r, base, n) >= top
  }

  /**
    On the day two days before that of m the loop ends at m and k is due; one day
    later it passes m, and l, which comes after m but lies before k, is due.
  */
  ghost predicate Undoes(r: Rule, base: int, k: nat, m: nat, l: nat)
    requires WellFormed(r)
  {
    && k < m < l && Reached(r, base, l)
    && OccDay(r, base, l) < OccDay(r, base, k) <= OccDay(r, base, m) - 2
    && (forall n: nat :: n < m ==> OccDay(r, base, n) < OccDay(r, base, m))
    && (forall n: nat :: k < n < m ==> OccDay(r, base, n) >= OccDay(r, base, m) - 1)
    && (forall n: nat :: m < n < l ==> OccDay(r, base, n) <= OccDay(r, base, m))
    && LastBelow(r, base, l, OccDay(r, base, m))
  }

  /** The loop that runs on the day of l ends at j, so no occurrence of that day is found. */
  ghost predicate Overlooked(r: Rule, base: int, j: nat, l: nat)
    requires WellFormed(r)
  {
    && j < l && Allowed(r, base, l) && FirstAt(r, base, l) && Occ(r, base, j).Some?
    && (OccDay(r, base, j) >= OccDay(r, base, l) + 2
        || (OccDay(r, base, j) > OccDay(r, base, l) && PastUntil(r, Occ(r, base, j).value)))
  }

  /** No day up to l is later than that of h. */
  ghost predicate LatestDay(r: Rule, base: int, h: nat, l: nat)
    requires WellFormed(r)
  {
    forall j: nat :: j <= l ==> OccDay(r, base, j) <= OccDay(r, base, h)
  }

  /**
    On the day before top the loop passes k and l, and the earlier day, that of l, is
    due; h is the latest day so far.
  */
  ghost predicate Masked(r: Rule, base: int, k: nat, h: nat, l: nat, top: int)
    requires WellFormed(r)
  {
    && k < l && h <= l && Reached(r, base, l)
    && LatestDay(r, base, h, l)
    && (top == OccDay(r, base, h) || top == OccDay(r, base, h) + 1)
    && OccDay(r, base, l) < OccDay(r, base, k) < top
    && LastBelow(r, base, l, top)
  }

  // ----- the same on the BYDAY entries of week w of the walk -----

  /** The weekday of an entry, counted from Monday. */
  function Offset(r: Rule, e: nat): int
    requires e < |r.byDay|
  {
    MondayOffset(r.byDay[e])
  }

  /** The entry is a day of that week: it is not before the start. */
  predicate Happens(r: Rule, base: int, w: nat, e: nat)
    requires e < |r.byDay|
  {
    Slot(r, base, w, e) >= base
  }

  /** The loop can get to the entry. */
  predicate Reachable(r: Rule, base: int, w: nat, e: nat)
    requires e < |r.byDay|
  {
    Happens(r, base, w, e) && Counted(r, Rank(r, base, w, e)) && WithinUntil(r, base, w, e)
  }

  predicate LastBelowWithin(r: Rule, base: int, w: nat, j: nat, top: int)
    requires j < |r.byDay|
  {
    forall n: nat | j < n < |r.byDay| ::
      Reachable(r, base, w, n) && EntriesBelow(r, base, w, j, n, top) ==> Offset(r, n) >= top
  }

  predicate EntriesBelow(r: Rule, base: int, w: nat, j: nat, n: nat, top: int)
    requires n < |r.byDay|
  {
    forall e: nat | j < e <= n :: Happens(r, base, w, e) ==> Offset(r, e) <= top
  }

  predicate UndoesWithin(r: Rule, base: int, w: nat, i: nat, m: nat, j: nat) {
    && i < m < j < |r.byDay| && Happens(r, base, w, i) && Happens(r, base, w, m) && Reachable(r, base, w, j)
    && Offset(r, j) < Offset(r, i) <= Offset(r, m) - 2
    && (forall n: nat | n < m :: Happens(r, base, w, n) ==> Offset(r, n) < Offset(r, m))
    && (forall n: nat | i < n < m :: Happens(r, base, w, n) ==> Offset(r, n) >= Offset(r, m) - 1)
    && (forall n: nat | m < n < j :: Happens(r, base, w, n) ==> Offset(r, n) <= Offset(r, m))
    && LastBelowWithin(r, base, w, j, Offset(r, m))
  }

  predicate OverlookedWithin(r: Rule, base: int, w: nat, i: nat, j: nat) {
    && Overtaken(r, base, w, i, j) && Happens(r, base, w, i) && FirstEntry(r, j)
    && (Offset(r, i) >= Offset(r, j) + 2 || PastUntil(r, Slot(r, base, w, i)))
  }

  predicate LatestWithin(r: Rule, base: int, w: nat, h: nat, j: nat)
    requires h < |r.byDay| && j < |r.byDay|
  {
    forall n: nat | n <= j :: Happens(r, base, w, n) ==> Offset(r, n) <= Offset(r, h)
  }

  predicate MaskedWithin(r: Rule, base: int, w: nat, i: nat, h: nat, j: nat, top: int) {
    && i < j < |r.byDay| && h <= j && Happens(r, base, w, i) && Happens(r, base, w, h) && Reachable(r, base, w, j)
    && LatestWithin(r, base, w, h, j)
    && (top == Offset(r, h) || top == Offset(r, h) + 1)
    && Offset(r, j) < Offset(r, i) < top
    && LastBelowWithin(r, base, w, j, top)
  }

  /** No week of the walk makes the due date go back. */
  predicate NeverUndoes(r: Rule, base: int) {
    r.freq == Weekly ==>
      forall w: nat, i: nat, m: nat, j: nat
        | w <= MAX_ITERATIONS && i < |r.byDay| && m < |r.byDay| && j < |r.byDay| :: !UndoesWithin(r, base, w, i, m, j)
  }

  /** No week of the walk makes the due date wrong. */
  predicate DueFollows(r: Rule, base: int) {
    r.freq == Weekly ==>
      (forall w: nat, i: nat, j: nat
         | w <= MAX_ITERATIONS && i < |r.byDay| && j < |r.byDay| :: !OverlookedWithin(r, base, w, i, j))
      && (forall w: nat, i: nat, h: nat, j: nat, top: nat
            | w <= MAX_ITERATIONS && i < |r.byDay| && h < |r.byDay| && j < |r.byDay| && top <= 7 ::
              !MaskedWithin(r, base, w, i, h, j, top))
  }

  // ----- occurrences and entries -----

  /** Day number of the Monday of week w. */
  function MondayDay(r: Rule, base: int, w: nat): int {
    7 * (WeekNumber(base) + r.interval * w)
  }

  lemma LaterMonday(r: Rule, base: int, v: nat, w: nat)
    requires r.interval >= 1 && v < w
    ensures MondayDay(r, base, v) + 7 <= MondayDay(r, base, w)
  {
    hide WeekNumber;
    assert r.interval * (w - v) >= 1;
    assert r.interval * w == r.interval * v + r.interval * (w - v);
  }

  /** An entry that happens is the occurrence its rank says, on its own day. */
  lemma EntryDay(r: Rule, base: int, w: nat, e: nat)
    requires ByDayRule(r) && e < |r.byDay| && Happens(r, base, w, e)
    ensures var n := Rank(r, base, w, e);
            Occ(r, base, n).Some? && Position(r, base, n) == (w, e)
            && OccDay(r, base, n) == MondayDay(r, base, w) + Offset(r, e)
  {
    hide Slot, Rank, Occ, Monday;
    RankOccurs(r, base, w, e);
    SlotDate(r, base, w, e);
  }

  /** Every occurrence is an entry that happens. */
  lemma DayEntry(r: Rule, base: int, n: nat)
    requires ByDayRule(r)
    ensures var p := Position(r, base, n);
            Happens(r, base, p.0, p.1) && n == Rank(r, base, p.0, p.1) && Occ(r, base, n).Some?
            && OccDay(r, base, n) == MondayDay(r, base, p.0) + Offset(r, p.1)
  {
    hide Slot, Rank, Occ, Monday;
    var p := Position(r, base, n);
    IndexIsRank(r, base, n);
    SlotDate(r, base, p.0, p.1);
  }

  /** Ranks follow positions. */
  lemma RanksInOrder(r: Rule, base: int, w: nat, i: nat, v: nat, j: nat)
    requires ByDayRule(r) && i < |r.byDay| && j < |r.byDay| && Happens(r, base, w, i) && Happens(r, base, v, j)
    ensures Rank(r, base, w, i) < Rank(r, base, v, j) <==> Before((w, i), (v, j))
  {
    hide Slot, Rank, Occ, Monday;
    RankOccurs(r, base, w, i);
    RankOccurs(r, base, v, j);
    var k, l := Rank(r, base, w, i), Rank(r, base, v, j);
    if k < l { PositionsAdvance(r, base, k, l); }
    if l < k { PositionsAdvance(r, base, l, k); }
  }

  /** An earlier occurrence lies in an earlier week, and then on an earlier day, or is an earlier entry. */
  lemma EarlierEntry(r: Rule, base: int, n: nat, w: nat, e: nat)
    requires ByDayRule(r) && e < |r.byDay| && Happens(r, base, w, e) && n < Rank(r, base, w, e)
    ensures var p := Position(r, base, n);
            (p.0 == w && p.1 < e) || (p.0 < w && OccDay(r, base, n) < MondayDay(r, base, w))
  {
    hide Slot, Rank, Occ, MondayDay, Happens;
    var p := Position(r, base, n);
    DayEntry(r, base, n);
    RanksInOrder(r, base, p.0, p.1, w, e);
    if p.0 < w { LaterMonday(r, base, p.0, w); }
  }

  lemma LaterEntryOf(r: Rule, base: int, n: nat, w: nat, e: nat)
    requires ByDayRule(r) && e < |r.byDay| && Happens(r, base, w, e) && Rank(r, base, w, e) < n
    ensures var p := Position(r, base, n);
            (p.0 == w && e < p.1) || (p.0 > w && OccDay(r, base, n) >= MondayDay(r, base, w) + 7)
  {
    hide Slot, Rank, Occ, MondayDay, Happens;
    var p := Position(r, base, n);
    DayEntry(r, base, n);
    RanksInOrder(r, base, w, e, p.0, p.1);
    if w < p.0 { LaterMonday(r, base, w, p.0); }
  }

  lemma ReachedEntry(r: Rule, base: int, w: nat, e: nat)
    requires ByDayRule(r) && e < |r.byDay| && Happens(r, base, w, e)
    ensures Reached(r, base, Rank(r, base, w, e)) <==> Reachable(r, base, w, e)
  {
    hide Slot, Rank, Occ, Counted, WithinUntil;
    ReachedIff(r, base, w, e);
  }

  /** A week beyond the cap holds no reached occurrence. */
  lemma WeekBelowCap(r: Rule, base: int, w: nat, e: nat)
    requires ByDayRule(r) && e < |r.byDay| && Counted(r, Rank(r, base, w, e))
    ensures w <= MAX_ITERATIONS
  {
    hide Open;
    if w > 0 { Multiply(w - 1, |r.byDay|); }
  }

  lemma Multiply(a: nat, b: nat)
    requires b >= 1
    ensures a * b >= a
  {
  }

  lemma StaysBelowIff(r: Rule, base: int, w: nat, j: nat, n: nat, top: int)
    requires ByDayRule(r) && j < n < |r.byDay| && Happens(r, base, w, j) && Happens(r, base, w, n)
    ensures StaysBelow(r, base, Rank(r, base, w, j), Rank(r, base, w, n), MondayDay(r, base, w) + top)
       <==> EntriesBelow(r, base, w, j, n, top)
  {
    hide Slot, Rank, Occ, MondayDay, OccDay, Offset, Happens;
    var l, k := Rank(r, base, w, j), Rank(r, base, w, n);
    if StaysBelow(r, base, l, k, MondayDay(r, base, w) + top) {
      forall e: nat | j < e <= n && Happens(r, base, w, e) ensures Offset(r, e) <= top {
        EntryDay(r, base, w, e);
        RanksInOrder(r, base, w, j, w, e);
        RanksInOrder(r, base, w, n, w, e);
      }
    }
    if EntriesBelow(r, base, w, j, n, top) {
      forall i: nat | l < i <= k ensures OccDay(r, base, i) <= MondayDay(r, base, w) + top {
        var p := Position(r, base, i);
        DayEntry(r, base, i);
        RanksInOrder(r, base, w, j, p.0, p.1);
        RanksInOrder(r, base, w, n, p.0, p.1);
      }
    }
  }

  lemma LastBelowIff(r: Rule, base: int, w: nat, j: nat, top: int)
    requires ByDayRule(r) && j < |r.byDay| && Happens(r, base, w, j) && top <= 7
    ensures LastBelow(r, base, Rank(r, base, w, j), MondayDay(r, base, w) + top)
       <==> LastBelowWithin(r, base, w, j, top)
  {
    hide Slot, Rank, Occ, MondayDay, OccDay, Offset, Happens, Reached, Reachable, StaysBelow, EntriesBelow;
    var l, day := Rank(r, base, w, j), MondayDay(r, base, w) + top;
    if LastBelow(r, base, l, day) {
      forall n: nat | j < n < |r.byDay| && Reachable(r, base, w, n) && EntriesBelow(r, base, w, j, n, top)
        ensures Offset(r, n) >= top
      {
        ReachableIsOpen(r, base, w, n);
        EntryDay(r, base, w, n);
        ReachedEntry(r, base, w, n);
        RanksInOrder(r, base, w, j, w, n);
        StaysBelowIff(r, base, w, j, n, top);
      }
    }
    if LastBelowWithin(r, base, w, j, top) {
      forall n: nat | n > l && Reached(r, base, n) && StaysBelow(r, base, l, n, day)
        ensures OccDay(r, base, n) >= day
      {
        var p := Position(r, base, n);
        DayEntry(r, base, n);
        LaterEntryOf(r, base, n, w, j);
        if p.0 == w {
          ReachedEntry(r, base, w, p.1);
          StaysBelowIff(r, base, w, j, p.1, top);
        }
      }
    }
  }

  lemma ReachableIsOpen(r: Rule, base: int, w: nat, e: nat)
    requires e < |r.byDay| && Reachable(r, base, w, e)
    ensures Happens(r, base, w, e) && Counted(r, Rank(r, base, w, e))
  {
    hide Slot, Rank;
  }

  // ----- the due date goes back -----

  lemma UndoesIff(r: Rule, base: int, w: nat, i: nat, m: nat, j: nat)
    requires ByDayRule(r) && i < |r.byDay| && m < |r.byDay| && j < |r.byDay|
    requires Happens(r, base, w, i) && Happens(r, base, w, m) && Happens(r, base, w, j)
    ensures Undoes(r, base, Rank(r, base, w, i), Rank(r, base, w, m), Rank(r, base, w, j))
       <==> UndoesWithin(r, base, w, i, m, j)
  {
    hide Slot, Rank, Occ, MondayDay, OccDay, Happens, Reached, Reachable, LastBelow, LastBelowWithin;
    var k, q, l := Rank(r, base, w, i), Rank(r, base, w, m), Rank(r, base, w, j);
    EntryDay(r, base, w, i);
    EntryDay(r, base, w, m);
    EntryDay(r, base, w, j);
    RanksInOrder(r, base, w, i, w, m);
    RanksInOrder(r, base, w, m, w, j);
    ReachedEntry(r, base, w, j);
    LastBelowIff(r, base, w, j, Offset(r, m));
    if UndoesWithin(r, base, w, i, m, j) {
      forall n: nat | n < l
        ensures n < q ==> OccDay(r, base, n) < OccDay(r, base, q)
        ensures k < n < q ==> OccDay(r, base, n) >= OccDay(r, base, q) - 1
        ensures q < n < l ==> OccDay(r, base, n) <= OccDay(r, base, q)
      {
        EntryAmong(r, base, w, i, m, j, n);
      }
    }
    if Undoes(r, base, k, q, l) {
      forall n: nat | n < j && Happens(r, base, w, n)
        ensures n < m ==> Offset(r, n) < Offset(r, m)
        ensures i < n < m ==> Offset(r, n) >= Offset(r, m) - 1
        ensures m < n < j ==> Offset(r, n) <= Offset(r, m)
      {
        EntryDay(r, base, w, n);
        RanksInOrder(r, base, w, i, w, n);
        RanksInOrder(r, base, w, n, w, m);
        RanksInOrder(r, base, w, m, w, n);
        RanksInOrder(r, base, w, n, w, j);
      }
    }
  }

  lemma EntryAmong(r: Rule, base: int, w: nat, i: nat, m: nat, j: nat, n: nat)
    requires ByDayRule(r) && UndoesWithin(r, base, w, i, m, j) && n < Rank(r, base, w, j)
    ensures var k, q := Rank(r, base, w, i), Rank(r, base, w, m);
            && (n < q ==> OccDay(r, base, n) < MondayDay(r, base, w) + Offset(r, m))
            && (k < n < q ==> OccDay(r, base, n) >= MondayDay(r, base, w) + Offset(r, m) - 1)
            && (q < n ==> OccDay(r, base, n) <= MondayDay(r, base, w) + Offset(r, m))
  {
    hide Slot, Rank, Occ, MondayDay, OccDay, Happens, Reachable, LastBelowWithin;
    ReachableIsOpen(r, base, w, j);
    var p := Position(r, base, n);
    DayEntry(r, base, n);
    EarlierEntry(r, base, n, w, j);
    RanksInOrder(r, base, p.0, p.1, w, m);
    RanksInOrder(r, base, w, m, p.0, p.1);
    RanksInOrder(r, base, w, i, p.0, p.1);
  }

  /** Three occurrences that make the due date go back are entries of one week, and the other way round. */
  lemma NeverUndoesIff(r: Rule, base: int)
    requires WellFormed(r)
    ensures NeverUndoes(r, base) <==> forall k: nat, m: nat, l: nat :: !Undoes(r, base, k, m, l)
  {
    hide UndoesWithin, Undoes, Rank, Happens;
    if ByDayRule(r) {
      if k: nat, m: nat, l: nat :| Undoes(r, base, k, m, l) {
        var w, i, e, j := UndoesInOneWeek(r, base, k, m, l);
      }
      if w: nat, i: nat, m: nat, j: nat :| UndoesWithin(r, base, w, i, m, j) {
        UndoesEntries(r, base, w, i, m, j);
        UndoesIff(r, base, w, i, m, j);
      }
    } else {
      NoUndoesWithout(r, base);
    }
  }

  lemma UndoesEntries(r: Rule, base: int, w: nat, i: nat, m: nat, j: nat)
    requires UndoesWithin(r, base, w, i, m, j)
    ensures i < |r.byDay| && m < |r.byDay| && j < |r.byDay|
    ensures Happens(r, base, w, i) && Happens(r, base, w, m) && Happens(r, base, w, j)
    ensures Counted(r, Rank(r, base, w, j))
  {
    hide Slot, Rank, LastBelowWithin;
  }

  lemma UndoesInOneWeek(r: Rule, base: int, k: nat, m: nat, l: nat) returns (w: nat, i: nat, e: nat, j: nat)
    requires ByDayRule(r) && Undoes(r, base, k, m, l)
    ensures w <= MAX_ITERATIONS && i < |r.byDay| && e < |r.byDay| && j < |r.byDay| && UndoesWithin(r, base, w, i, e, j)
  {
    hide Slot, Rank, Occ, MondayDay, OccDay, Happens, Offset, UndoesWithin, Reached, LastBelow;
    var p, q, s := Position(r, base, k), Position(r, base, m), Position(r, base, l);
    DayEntry(r, base, k);
    DayEntry(r, base, m);
    DayEntry(r, base, l);
    PositionsAdvance(r, base, k, m);
    PositionsAdvance(r, base, m, l);
    SameWeek(r, base, k, l);
    w, i, e, j := s.0, p.1, q.1, s.1;
    UndoesIff(r, base, w, i, e, j);
    UndoesEntries(r, base, w, i, e, j);
    WeekBelowCap(r, base, w, j);
  }

  /** An occurrence that comes later and lies earlier is in the same week. */
  lemma SameWeek(r: Rule, base: int, k: nat, l: nat)
    requires ByDayRule(r) && k < l && OccDay(r, base, l) < OccDay(r, base, k)
    ensures Position(r, base, k).0 == Position(r, base, l).0 && Position(r, base, k).1 < Position(r, base, l).1
  {
    hide Slot, Rank, Occ, MondayDay, OccDay, Happens;
    var p, q := Position(r, base, k), Position(r, base, l);
    DayEntry(r, base, k);
    DayEntry(r, base, l);
    PositionsAdvance(r, base, k, l);
    if p.0 < q.0 { LaterMonday(r, base, p.0, q.0); }
  }

  /** Where every allowed occurrence is in order, nothing comes later and lies earlier. */
  lemma InOrderDays(r: Rule, base: int, k: nat, l: nat)
    requires WellFormed(r) && InOrder(r, base) && k < l && Allowed(r, base, l) && Occ(r, base, k).Some?
    ensures OccDay(r, base, k) <= OccDay(r, base, l)
  {
    hide Occ, PastUntil;
  }

  lemma NoUndoesWithout(r: Rule, base: int)
    requires WellFormed(r) && !ByDayRule(r)
    ensures NeverUndoes(r, base) && forall k: nat, m: nat, l: nat :: !Undoes(r, base, k, m, l)
  {
    hide Occ, OccDay, InOrder, UndoesWithin, LastBelow;
    NothingGoesBack(r, base);
    forall k: nat, m: nat, l: nat | Undoes(r, base, k, m, l) ensures false {
      ReachedIsAllowed(r, base, l);
      InOrderDays(r, base, k, l) by { ReachedBefore(r, base, k, l); ReachedIsAllowed(r, base, k); }
    }
  }

  // ----- the due date is wrong -----

  lemma OverlookedIff(r: Rule, base: int, w: nat, i: nat, j: nat)
    requires ByDayRule(r) && i < |r.byDay| && j < |r.byDay| && Happens(r, base, w, i) && Happens(r, base, w, j)
    ensures Overlooked(r, base, Rank(r, base, w, i), Rank(r, base, w, j)) <==> OverlookedWithin(r, base, w, i, j)
  {
    hide Rank, Occ, MondayDay, OccDay, Slot, PastUntil, Counted, FirstAt, FirstEntry, MondayOffset;
    EntryDay(r, base, w, i);
    EntryDay(r, base, w, j);
    RankOccurs(r, base, w, i);
    RankOccurs(r, base, w, j);
    RanksInOrder(r, base, w, i, w, j);
    FirstAtIff(r, base, w, j);
  }

  lemma OverlookedInOneWeek(r: Rule, base: int, k: nat, l: nat) returns (w: nat, i: nat, j: nat)
    requires ByDayRule(r) && Overlooked(r, base, k, l)
    ensures w <= MAX_ITERATIONS && i < |r.byDay| && j < |r.byDay| && OverlookedWithin(r, base, w, i, j)
  {
    hide Slot, Rank, Occ, MondayDay, OccDay, Happens, Offset, OverlookedWithin, PastUntil, FirstAt, Counted;
    var p, q := Position(r, base, k), Position(r, base, l);
    DayEntry(r, base, k);
    DayEntry(r, base, l);
    SameWeek(r, base, k, l);
    w, i, j := q.0, p.1, q.1;
    OverlookedIff(r, base, w, i, j);
    WeekBelowCap(r, base, w, j);
  }

  lemma MaskedIff(r: Rule, base: int, w: nat, i: nat, h: nat, j: nat, top: int)
    requires ByDayRule(r) && i < |r.byDay| && h < |r.byDay| && j < |r.byDay| && top <= 7
    requires Happens(r, base, w, i) && Happens(r, base, w, h) && Happens(r, base, w, j)
    ensures Masked(r, base, Rank(r, base, w, i), Rank(r, base, w, h), Rank(r, base, w, j), MondayDay(r, base, w) + top)
       <==> MaskedWithin(r, base, w, i, h, j, top)
  {
    hide Slot, Rank, Occ, MondayDay, OccDay, Happens, Reached, Reachable, LastBelow, LastBelowWithin, Offset;
    hide LatestDay, LatestWithin;
    var k, g, l := Rank(r, base, w, i), Rank(r, base, w, h), Rank(r, base, w, j);
    EntryDay(r, base, w, i);
    EntryDay(r, base, w, h);
    EntryDay(r, base, w, j);
    RanksInOrder(r, base, w, i, w, j);
    RanksInOrder(r, base, w, j, w, h);
    ReachedEntry(r, base, w, j);
    LastBelowIff(r, base, w, j, top);
    LatestIff(r, base, w, h, j);
  }

  lemma LatestIff(r: Rule, base: int, w: nat, h: nat, j: nat)
    requires ByDayRule(r) && h < |r.byDay| && j < |r.byDay| && Happens(r, base, w, h) && Happens(r, base, w, j)
    ensures LatestDay(r, base, Rank(r, base, w, h), Rank(r, base, w, j)) <==> LatestWithin(r, base, w, h, j)
  {
    hide Slot, Rank, Occ, MondayDay, OccDay, Happens, Offset;
    var g, l := Rank(r, base, w, h), Rank(r, base, w, j);
    EntryDay(r, base, w, h);
    if LatestWithin(r, base, w, h, j) {
      forall n: nat | n <= l ensures OccDay(r, base, n) <= OccDay(r, base, g) {
        DayEntry(r, base, n);
        OffsetBounds(r, h);
        if n < l { EarlierEntry(r, base, n, w, j); } else { EntryDay(r, base, w, j); }
      }
    }
    if LatestDay(r, base, g, l) {
      forall n: nat | n <= j && Happens(r, base, w, n) ensures Offset(r, n) <= Offset(r, h) {
        EntryDay(r, base, w, n);
        RanksInOrder(r, base, w, j, w, n);
      }
    }
  }

  lemma OffsetBounds(r: Rule, e: nat)
    requires e < |r.byDay|
    ensures 0 <= Offset(r, e) < 7
  {
  }

  lemma MaskedInOneWeek(r: Rule, base: int, k: nat, g: nat, l: nat, day: int)
    returns (w: nat, i: nat, h: nat, j: nat, top: nat)
    requires ByDayRule(r) && Masked(r, base, k, g, l, day)
    ensures w <= MAX_ITERATIONS && i < |r.byDay| && h < |r.byDay| && j < |r.byDay| && top <= 7
    ensures MaskedWithin(r, base, w, i, h, j, top)
  {
    hide Slot, Rank, Occ, MondayDay, OccDay, Happens, Offset, MaskedWithin, Reached, LastBelow, Counted;
    var p, q, s := Position(r, base, k), Position(r, base, g), Position(r, base, l);
    DayEntry(r, base, k);
    DayEntry(r, base, g);
    DayEntry(r, base, l);
    SameWeek(r, base, k, l);
    SameWeek(r, base, g, l);
    w, i, h, j := s.0, p.1, q.1, s.1;
    OffsetBounds(r, h);
    OffsetBounds(r, j);
    top := day - MondayDay(r, base, w);
    MaskedIff(r, base, w, i, h, j, top);
    ReachedCounted(r, base, l);
    WeekBelowCap(r, base, w, j);
  }

  lemma ReachedCounted(r: Rule, base: int, l: nat)
    requires WellFormed(r) && Reached(r, base, l)
    ensures Counted(r, l)
  {
    hide Occ, Counted;
  }

  ghost predicate NoneOverlooked(r: Rule, base: int)
    requires WellFormed(r)
  {
    forall j: nat, l: nat :: !Overlooked(r, base, j, l)
  }

  ghost predicate NoneMasked(r: Rule, base: int)
    requires WellFormed(r)
  {
    forall k: nat, h: nat, l: nat, top: int :: !Masked(r, base, k, h, l, top)
  }

  /** The condition on occurrences and the one on entries are the same. */
  lemma DueFollowsIff(r: Rule, base: int)
    requires WellFormed(r)
    ensures DueFollows(r, base) <==> NoneOverlooked(r, base) && NoneMasked(r, base)
  {
    hide OverlookedWithin, Overlooked, MaskedWithin, Masked, Rank, Happens;
    if ByDayRule(r) {
      if j: nat, l: nat :| Overlooked(r, base, j, l) {
        var w, i, e := OverlookedInOneWeek(r, base, j, l);
      }
      if k: nat, g: nat, l: nat, day: int :| Masked(r, base, k, g, l, day) {
        var w, i, h, j, top := MaskedInOneWeek(r, base, k, g, l, day);
      }
      if w: nat, i: nat, j: nat :| OverlookedWithin(r, base, w, i, j) {
        OverlookedEntries(r, base, w, i, j);
        OverlookedIff(r, base, w, i, j);
      }
      if w: nat, i: nat, h: nat, j: nat, top: nat :| MaskedWithin(r, base, w, i, h, j, top) {
        MaskedEntries(r, base, w, i, h, j, top);
        MaskedIff(r, base, w, i, h, j, top);
      }
    } else {
      InOrderFollows(r, base) by { NothingGoesBack(r, base); }
    }
  }

  lemma OverlookedEntries(r: Rule, base: int, w: nat, i: nat, j: nat)
    requires OverlookedWithin(r, base, w, i, j)
    ensures i < |r.byDay| && j < |r.byDay| && Happens(r, base, w, i) && Happens(r, base, w, j)
  {
    hide Slot, Rank, PastUntil;
  }

  lemma MaskedEntries(r: Rule, base: int, w: nat, i: nat, h: nat, j: nat, top: int)
    requires MaskedWithin(r, base, w, i, h, j, top)
    ensures i < |r.byDay| && h < |r.byDay| && j < |r.byDay| && top <= 7
    ensures Happens(r, base, w, i) && Happens(r, base, w, h) && Happens(r, base, w, j)
  {
    hide Slot, Rank, LastBelowWithin;
  }

  /** A rule in order overlooks and masks nothing. */
  lemma InOrderFollows(r: Rule, base: int)
    requires WellFormed(r) && InOrder(r, base)
    ensures NoneOverlooked(r, base) && NoneMasked(r, base)
  {
    hide Occ, OccDay, InOrder, LastBelow, PastUntil, FirstAt, Counted;
    forall j: nat, l: nat | Overlooked(r, base, j, l) ensures false { InOrderDays(r, base, j, l); }
    forall k: nat, h: nat, l: nat, top: int | Masked(r, base, k, h, l, top) ensures false {
      ReachedIsAllowed(r, base, l);
      ReachedBefore(r, base, k, l);
      ReachedIsAllowed(r, base, k);
      InOrderDays(r, base, k, l);
    }
  }
}
