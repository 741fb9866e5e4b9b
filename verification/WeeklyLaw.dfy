/**
  The weekly-by-day law: which instants the iterator yields for a weekly rule
  with BYDAY, and in which order.
*/
module WeeklyLaw {
  import opened Wrappers
  import opened Calendar
  import opened Rules
  import opened Iteration

  predicate ByDayRule(r: Rule) {
    WellFormed(r) && r.freq == Weekly && |r.byDay| > 0
  }

  /** Weeks begin on Monday; day number 0 is one. */
  function WeekNumber(t: int): int { t / DAY / 7 }

  /** The reference definition: the instants a weekly rule with BYDAY stands for. */
  predicate InRule(r: Rule, base: int, t: int)
    requires r.interval >= 1
  {
    && t >= base
    && TimeOfDay(t) == TimeOfDay(base)
    && Weekday(t) in r.byDay
    && (WeekNumber(t) - WeekNumber(base)) % r.interval == 0
  }

  /** BYDAY lists distinct weekdays from Monday to Sunday. */
  predicate MondayFirst(days: seq<DayOfWeek>) {
    forall i, j :: 0 <= i < j < |days| ==> MondayOffset(days[i]) < MondayOffset(days[j])
  }

  /** BYDAY runs from Monday to Sunday; repeats are allowed. */
  predicate MondaySorted(days: seq<DayOfWeek>) {
    forall i, j :: 0 <= i < j < |days| ==> MondayOffset(days[i]) <= MondayOffset(days[j])
  }

  // ----- positions: week number w of the walk, entry i of BYDAY -----

  function Monday(r: Rule, base: int, w: int): int {
    (7 * WeekNumber(base) + 7 * (r.interval * w)) * DAY
  }

  function Slot(r: Rule, base: int, w: int, i: nat): int
    requires i < |r.byDay|
  {
    Monday(r, base, w) + MondayOffset(r.byDay[i]) * DAY + TimeOfDay(base)
  }

  lemma SlotIsCandidate(r: Rule, base: int, w: int, i: nat)
    requires i < |r.byDay|
    ensures Candidate(base, Monday(r, base, w), r.byDay[i]) == Slot(r, base, w, i)
  {
    hide Candidate;
    CandidateIs(base, Monday(r, base, w), r.byDay[i]);
  }

  lemma FirstMonday(r: Rule, base: int)
    ensures WeekStart(base) == Monday(r, base, 0)
  {
    hide WeekStart;
    WeekStartIsMonday(base);
  }

  lemma MondayAfter(r: Rule, base: int, w: int)
    ensures NextWeek(r, Monday(r, base, w)) == Monday(r, base, w + 1)
  {
    hide NextWeek;
    NextWeekIs(r, Monday(r, base, w));
    ShiftWeeks(0, WeekNumber(base) + r.interval * w);
    assert r.interval * (w + 1) == r.interval * w + r.interval;
  }

  /** From the second week on, no day lies before the start. */
  lemma LaterWeeksStart(r: Rule, base: int, w: int, i: nat)
    requires ByDayRule(r) && i < |r.byDay| && w >= 1
    ensures Slot(r, base, w, i) >= base
  {
    assert r.interval * w >= 1;
  }

  predicate Before(p: (nat, nat), q: (nat, nat)) {
    p.0 < q.0 || (p.0 == q.0 && p.1 < q.1)
  }

  function Successor(r: Rule, p: (nat, nat)): (nat, nat) {
    if p.1 + 1 < |r.byDay| then (p.0, p.1 + 1) else (p.0 + 1, 0)
  }

  /** The first position from p on whose day is not before the start. */
  function Settle(r: Rule, base: int, p: (nat, nat)): (q: (nat, nat))
    requires ByDayRule(r) && p.1 < |r.byDay|
    ensures q.1 < |r.byDay| && (q == p || Before(p, q))
  {
    if p.0 > 0 then p
    else
      var j := FirstInWeek(r, base, Monday(r, base, 0), p.1);
      if j < |r.byDay| then (0, j) else (1, 0)
  }

  /** The position of occurrence number k. */
  function Position(r: Rule, base: int, k: nat): (q: (nat, nat))
    requires ByDayRule(r)
    ensures q.1 < |r.byDay|
  {
    if k == 0 then Settle(r, base, (0, 0)) else Settle(r, base, Successor(r, Position(r, base, k - 1)))
  }

  lemma FindNextSettles(r: Rule, base: int, p: (nat, nat))
    requires ByDayRule(r) && p.1 < |r.byDay|
    ensures var q := Settle(r, base, p);
            FindNext(r, base, Monday(r, base, p.0), p.1) == (Monday(r, base, q.0), q.1)
  {
    hide Candidate, NextWeek, Slot, Monday, WeekStart;
    var m := Monday(r, base, p.0);
    if p.0 > 0 {
      LaterWeeksStart(r, base, p.0, p.1);
      SlotIsCandidate(r, base, p.0, p.1);
    } else if FirstInWeek(r, base, m, p.1) == |r.byDay| {
      MondayAfter(r, base, 0);
      LaterWeeksStart(r, base, 1, 0);
      SlotIsCandidate(r, base, 1, 0);
      assert FirstInWeek(r, base, NextWeek(r, m), 0) == 0;
    }
  }

  /** findNextByDay calls itself at most once, and not at all after the start's own week. */
  lemma RecursesAtMostOnce(r: Rule, base: int, w: nat, i: nat)
    requires ByDayRule(r) && i < |r.byDay|
    ensures var m := Monday(r, base, w);
            FindNext(r, base, m, i).0 == m || (w == 0 && FindNext(r, base, m, i) == (NextWeek(r, m), 0))
  {
    hide Candidate, NextWeek, Slot, Monday, WeekStart;
    FindNextSettles(r, base, (w, i));
    MondayAfter(r, base, 0);
  }

  /** The fields and the answer that position p stands for. */
  function AtPosition(r: Rule, base: int, p: (nat, nat)): (Cursor, int)
    requires p.1 < |r.byDay|
  {
    (Cursor(Monday(r, base, p.0), p.1, true), Slot(r, base, p.0, p.1))
  }

  lemma FirstAdvance(r: Rule, base: int)
    requires ByDayRule(r)
    ensures AdvanceByDay(r, base, Cursor(base, 0, false)) == AtPosition(r, base, Settle(r, base, (0, 0)))
  {
    hide Candidate, NextWeek, Slot, Monday, WeekStart, Settle;
    FirstMonday(r, base);
    FindNextSettles(r, base, (0, 0));
    var q := Settle(r, base, (0, 0));
    SlotIsCandidate(r, base, q.0, q.1);
  }

  lemma LaterAdvance(r: Rule, base: int, p: (nat, nat))
    requires ByDayRule(r) && p.1 < |r.byDay|
    ensures AdvanceByDay(r, base, AtPosition(r, base, p).0) == AtPosition(r, base, Settle(r, base, Successor(r, p)))
  {
    hide Candidate, NextWeek, Slot, Monday, WeekStart, Settle;
    MondayAfter(r, base, p.0);
    FindNextSettles(r, base, Successor(r, p));
    var q := Settle(r, base, Successor(r, p));
    SlotIsCandidate(r, base, q.0, q.1);
  }

  /** After any number of advances the fields sit on the position the reference walk gives. */
  lemma {:induction false} WalkFollowsPositions(r: Rule, base: int, k: nat)
    requires ByDayRule(r)
    ensures Walk(r, base, k) == Some(AtPosition(r, base, Position(r, base, k)))
  {
    hide AdvanceByDay, AtPosition, Settle;
    if k == 0 {
      FirstAdvance(r, base);
    } else {
      WalkFollowsPositions(r, base, k - 1);
      LaterAdvance(r, base, Position(r, base, k - 1));
    }
  }

  lemma {:induction false} PositionsAdvance(r: Rule, base: int, j: nat, k: nat)
    requires ByDayRule(r) && j < k
    ensures Before(Position(r, base, j), Position(r, base, k))
  {
    hide Monday;
    if j < k - 1 {
      PositionsAdvance(r, base, j, k - 1);
    }
  }

  /** How many of the first i entries of BYDAY are not before the start in its own week. */
  function Open(r: Rule, base: int, i: nat): nat
    requires i <= |r.byDay|
  {
    if i == 0 then 0 else Open(r, base, i - 1) + if Slot(r, base, 0, i - 1) >= base then 1 else 0
  }

  /** How many occurrences come before entry i of week w. */
  function Rank(r: Rule, base: int, w: nat, i: nat): nat
    requires i <= |r.byDay|
  {
    if w == 0 then Open(r, base, i) else Open(r, base, |r.byDay|) + (w - 1) * |r.byDay| + i
  }

  lemma {:induction false} OpenGrows(r: Rule, base: int, i: nat, j: nat)
    requires i <= j <= |r.byDay|
    ensures Open(r, base, i) <= Open(r, base, j)
    decreases j - i
  {
    hide Slot;
    if i < j { OpenGrows(r, base, i, j - 1); }
  }

  lemma SettledIff(r: Rule, base: int, w: nat, i: nat)
    requires ByDayRule(r) && i < |r.byDay|
    ensures Settle(r, base, (w, i)) == (w, i) <==> Slot(r, base, w, i) >= base
  {
    hide Monday, Slot, Candidate;
    if w > 0 { LaterWeeksStart(r, base, w, i); } else { SlotIsCandidate(r, base, 0, i); }
  }

  lemma RankStep(r: Rule, base: int, w: nat, i: nat)
    requires ByDayRule(r) && i < |r.byDay|
    ensures var q := Successor(r, (w, i));
            Rank(r, base, q.0, q.1) == Rank(r, base, w, i) + if Slot(r, base, w, i) >= base then 1 else 0
  {
    hide Slot;
    if w > 0 {
      LaterWeeksStart(r, base, w, i);
      assert w * |r.byDay| == (w - 1) * |r.byDay| + |r.byDay|;
    }
  }

  /** Every position is settled on, at the advance its rank says. */
  lemma {:induction false} RankReaches(r: Rule, base: int, w: nat, i: nat)
    requires ByDayRule(r) && i < |r.byDay|
    ensures Position(r, base, Rank(r, base, w, i)) == Settle(r, base, (w, i))
    decreases w, i
  {
    hide Monday, Settle, Slot, Rank;
    if w == 0 && i == 0 {
      assert Rank(r, base, 0, 0) == 0 by { hide *; RankStart(r, base); }
    } else {
      var p := if i > 0 then (w, i - 1) else (w - 1, |r.byDay| - 1);
      RankReaches(r, base, p.0, p.1);
      RankStep(r, base, p.0, p.1);
      SettledIff(r, base, p.0, p.1);
      if Settle(r, base, p) != p { SettlesTogether(r, base, p); }
    }
  }

  lemma RankStart(r: Rule, base: int)
    ensures Rank(r, base, 0, 0) == 0
  {
  }

  /** A day of the rule that is not before the start is the occurrence its rank says. */
  lemma RankOccurs(r: Rule, base: int, w: nat, i: nat)
    requires ByDayRule(r) && i < |r.byDay| && Slot(r, base, w, i) >= base
    ensures Position(r, base, Rank(r, base, w, i)) == (w, i)
    ensures Occ(r, base, Rank(r, base, w, i)) == Some(Slot(r, base, w, i))
  {
    hide Monday, Slot, Settle, Rank, Walk, AdvanceByDay;
    RankReaches(r, base, w, i);
    SettledIff(r, base, w, i);
    WalkFollowsPositions(r, base, Rank(r, base, w, i));
  }

  /** A position that is not settled on settles with its successor. */
  lemma SettlesTogether(r: Rule, base: int, p: (nat, nat))
    requires ByDayRule(r) && p.1 < |r.byDay| && Settle(r, base, p) != p
    ensures Settle(r, base, Successor(r, p)) == Settle(r, base, p)
  {
    hide Monday, Candidate;
  }

  lemma SlotDate(r: Rule, base: int, w: int, i: nat)
    requires i < |r.byDay|
    ensures Slot(r, base, w, i) / DAY == 7 * (WeekNumber(base) + r.interval * w) + MondayOffset(r.byDay[i])
    ensures TimeOfDay(Slot(r, base, w, i)) == TimeOfDay(base)
  {
    ShiftDays(TimeOfDay(base), 7 * (WeekNumber(base) + r.interval * w) + MondayOffset(r.byDay[i]));
  }

  lemma MultipleRemainder(a: int, b: int)
    requires b > 0
    ensures b * a % b == 0
  {
    var q, m := b * a / b, b * a % b;
    assert a - q >= 1 ==> b * (a - q) >= b;
    assert a - q <= -1 ==> b * (a - q) <= -b;
    assert b * (a - q) == m;
  }

  lemma SlotInRule(r: Rule, base: int, w: nat, i: nat)
    requires ByDayRule(r) && i < |r.byDay| && Slot(r, base, w, i) >= base
    ensures InRule(r, base, Slot(r, base, w, i))
  {
    hide Slot;
    var t := Slot(r, base, w, i);
    var o := MondayOffset(r.byDay[i]);
    SlotDate(r, base, w, i);
    assert WeekNumber(t) == WeekNumber(base) + r.interval * w;
    MultipleRemainder(w, r.interval);
    ShiftWeeks(o + 1, WeekNumber(base) + r.interval * w);
    assert Weekday(t) == r.byDay[i];
  }

  /** Soundness: every occurrence is one of the rule's instants. */
  lemma OnlyRuleDays(r: Rule, base: int, k: nat)
    requires ByDayRule(r)
    ensures Occ(r, base, k).Some? && InRule(r, base, Occ(r, base, k).value)
  {
    hide Monday, Slot, Candidate, InRule;
    WalkFollowsPositions(r, base, k);
    var p := Position(r, base, k);
    SettledIsNotEarly(r, base, k);
    SlotInRule(r, base, p.0, p.1);
  }

  lemma SettledIsNotEarly(r: Rule, base: int, k: nat)
    requires ByDayRule(r)
    ensures var p := Position(r, base, k); Slot(r, base, p.0, p.1) >= base
  {
    hide Monday, Slot, Candidate;
    var p := Position(r, base, k);
    if p.0 > 0 {
      LaterWeeksStart(r, base, p.0, p.1);
    } else {
      SlotIsCandidate(r, base, 0, p.1);
    }
  }

  lemma RuleDayHasSlot(r: Rule, base: int, t: int) returns (w: nat, i: nat)
    requires ByDayRule(r) && InRule(r, base, t)
    ensures i < |r.byDay| && Slot(r, base, w, i) == t
  {
    var d := WeekNumber(t) - WeekNumber(base);
    assert d >= 0;
    assert d == r.interval * (d / r.interval) + d % r.interval;
    w := d / r.interval;
    i :| 0 <= i < |r.byDay| && r.byDay[i] == Weekday(t);
    assert MondayOffset(r.byDay[i]) == t / DAY % 7;
  }

  /** Completeness: every instant of the rule is some occurrence, so none is missed. */
  lemma MissesNoRuleDay(r: Rule, base: int, t: int) returns (k: nat)
    requires ByDayRule(r) && InRule(r, base, t)
    ensures Occ(r, base, k) == Some(t)
  {
    var w, i := RuleDayHasSlot(r, base, t);
    hide Monday, Slot, InRule, Rank, Walk;
    RankOccurs(r, base, w, i);
    k := Rank(r, base, w, i);
  }

  /** Days of a later week come later; within a week they come by weekday. */
  lemma SlotOrder(r: Rule, base: int, w: nat, i: nat, v: nat, j: nat)
    requires ByDayRule(r) && i < |r.byDay| && j < |r.byDay|
    ensures w < v ==> Slot(r, base, w, i) < Slot(r, base, v, j)
    ensures w == v ==>
              Slot(r, base, v, j) - Slot(r, base, w, i) == (MondayOffset(r.byDay[j]) - MondayOffset(r.byDay[i])) * DAY
  {
    if w < v {
      assert r.interval * (v - w) >= 1;
      assert r.interval * v == r.interval * w + r.interval * (v - w);
    }
  }

  /** With sorted BYDAY no occurrence precedes an earlier one. */
  lemma SortedNeverGoesBack(r: Rule, base: int, j: nat, k: nat)
    requires ByDayRule(r) && MondaySorted(r.byDay) && j < k
    ensures Occ(r, base, j).Some? && Occ(r, base, k).Some?
    ensures Occ(r, base, j).value <= Occ(r, base, k).value
  {
    hide Monday, Slot, Candidate, InRule, MondayOffset, Walk, Advance;
    WalkFollowsPositions(r, base, j);
    WalkFollowsPositions(r, base, k);
    PositionsAdvance(r, base, j, k);
    var p, q := Position(r, base, j), Position(r, base, k);
    SlotOrder(r, base, p.0, p.1, q.0, q.1);
  }

  /** The order is strictly increasing exactly when BYDAY is listed Monday first without repeats. */
  lemma IncreasingIffMondayFirst(r: Rule, base: int)
    requires ByDayRule(r)
    ensures Increasing(r, base) <==> MondayFirst(r.byDay)
  {
    hide Monday, Slot, Candidate, InRule, MondayOffset, Walk;
    if MondayFirst(r.byDay) {
      forall j: nat, k: nat | j < k && Occ(r, base, j).Some? && Occ(r, base, k).Some?
        ensures Occ(r, base, j).value < Occ(r, base, k).value
      {
        WalkFollowsPositions(r, base, j);
        WalkFollowsPositions(r, base, k);
        PositionsAdvance(r, base, j, k);
        var p, q := Position(r, base, j), Position(r, base, k);
        SlotOrder(r, base, p.0, p.1, q.0, q.1);
      }
    }
    if Increasing(r, base) {
      forall i, j | 0 <= i < j < |r.byDay|
        ensures MondayOffset(r.byDay[i]) < MondayOffset(r.byDay[j])
      {
        SecondWeekInOrder(r, base, i, j);
      }
    }
  }

  /** The second week holds every entry of BYDAY, in the order listed. */
  lemma SecondWeekInOrder(r: Rule, base: int, i: nat, j: nat)
    requires ByDayRule(r) && Increasing(r, base) && i < j < |r.byDay|
    ensures MondayOffset(r.byDay[i]) < MondayOffset(r.byDay[j])
  {
    hide Monday, Slot, InRule, MondayOffset, Walk, Rank;
    LaterWeeksStart(r, base, 1, i);
    LaterWeeksStart(r, base, 1, j);
    var k, l := Rank(r, base, 1, i), Rank(r, base, 1, j);
    RankOccurs(r, base, 1, i);
    RankOccurs(r, base, 1, j);
    if l < k { PositionsAdvance(r, base, l, k); }
    assert Occ(r, base, k).value < Occ(r, base, l).value;
    SlotOrder(r, base, 1, i, 1, j);
  }

  // ----- dates -----

  /** BYDAY names no weekday twice. */
  predicate Distinct(days: seq<DayOfWeek>) {
    forall i, j :: 0 <= i < j < |days| ==> days[i] != days[j]
  }

  lemma SlotsShareDate(r: Rule, base: int, w: nat, i: nat, v: nat, j: nat)
    requires ByDayRule(r) && i < |r.byDay| && j < |r.byDay|
    ensures Slot(r, base, w, i) / DAY == Slot(r, base, v, j) / DAY <==> w == v && r.byDay[i] == r.byDay[j]
  {
    hide Slot, Monday;
    SlotDate(r, base, w, i);
    SlotDate(r, base, v, j);
    if w < v { assert r.interval * (v - w) >= 1; assert r.interval * v == r.interval * w + r.interval * (v - w); }
    if v < w { assert r.interval * (w - v) >= 1; assert r.interval * w == r.interval * v + r.interval * (w - v); }
  }

  /** No two occurrences lie on one date exactly when BYDAY has no repeats, whatever its order. */
  lemma NoSharedDateIffDistinct(r: Rule, base: int)
    requires ByDayRule(r)
    ensures Distinct(r.byDay)
       <==> forall j: nat, k: nat :: j < k && Occ(r, base, j).Some? && Occ(r, base, k).Some?
              ==> DayNumber(Occ(r, base, j).value) != DayNumber(Occ(r, base, k).value)
  {
    hide Monday, Slot, InRule, Walk, Rank, Occ;
    forall j: nat, k: nat | Distinct(r.byDay) && j < k && Occ(r, base, j).Some? && Occ(r, base, k).Some?
      ensures DayNumber(Occ(r, base, j).value) != DayNumber(Occ(r, base, k).value)
    {
      OccurrenceIsSlot(r, base, j);
      OccurrenceIsSlot(r, base, k);
      PositionsAdvance(r, base, j, k);
      var p, q := Position(r, base, j), Position(r, base, k);
      SlotsShareDate(r, base, p.0, p.1, q.0, q.1);
    }
    if i, j :| 0 <= i < j < |r.byDay| && r.byDay[i] == r.byDay[j] {
      LaterWeeksStart(r, base, 1, i);
      LaterWeeksStart(r, base, 1, j);
      var k, l := Rank(r, base, 1, i), Rank(r, base, 1, j);
      RankOccurs(r, base, 1, i);
      RankOccurs(r, base, 1, j);
      SlotsShareDate(r, base, 1, i, 1, j);
      assert k < l || l < k;
    }
  }

  lemma OccurrenceIsSlot(r: Rule, base: int, k: nat)
    requires ByDayRule(r)
    ensures var p := Position(r, base, k); Occ(r, base, k) == Some(Slot(r, base, p.0, p.1))
  {
    hide Monday, Slot;
    WalkFollowsPositions(r, base, k);
  }
}
