/** What the answers about a chore mean, on which days they are right, and whether they ever go back. */
module ChoreLaws {
  import opened Wrappers
  import opened Calendar
  import opened Rules
  import opened Iteration
  import opened SequenceLaws
  import opened Expansion
  import opened ExpandLaws
  import opened ReturnLaws
  import opened WindowLaw
  import opened OrderLaw
  import opened DueOrder
  import opened RRule
  import RRuleLaws
  import WeeklyLaw
  import opened Chores

  /** Day number d is one the chore is scheduled on, whatever day it is asked from. */
  ghost predicate Scheduled(r: Rule, base: int, d: int)
    requires WellFormed(r)
  {
    exists k: nat :: Allowed(r, base, k) && DayNumber(Occ(r, base, k).value) == d
  }

  /** d is the greatest scheduled day not after today. */
  ghost predicate CurrentDay(r: Rule, base: int, today: int, d: int)
    requires WellFormed(r)
  {
    && Scheduled(r, base, d) && d <= today
    && forall e :: Scheduled(r, base, e) && e <= today ==> e <= d
  }

  lemma DayOrder(t: int, day: int)
    ensures StartOfDay(t) == DayNumber(t) * DAY
    ensures StartOfDay(t) < (day + 1) * DAY <==> DayNumber(t) <= day
    ensures DayNumber(t) <= day ==> t < (day + 1) * DAY
  {
    hide StartOfDay;
    StartOfDayIs(t);
  }

  // ----- which occurrence is due -----

  /** The loop that runs on a day passes occurrence n. */
  ghost predicate Seen(r: Rule, base: int, day: int, n: nat)
    requires WellFormed(r)
  {
    Reached(r, base, n) && forall j: nat :: j <= n ==> OccDay(r, base, j) <= day + 1
  }

  /** The loop of ComputeStatus collects every occurrence it passes, and ends at the first one it does not. */
  lemma {:induction false} RunCollects(r: Rule, base: int, rangeEnd: int, from: nat)
    requires WellFormed(r) && Run(r, base, HOUR, base, rangeEnd, from).Some? && from <= MAX_ITERATIONS
    ensures var os := Run(r, base, HOUR, base, rangeEnd, from).value;
            && from + |os| <= MAX_ITERATIONS
            && (forall i: nat :: i < |os| ==> Occ(r, base, from + i) == Some(os[i].start)
                                              && !Stops(r, rangeEnd, from + i, os[i].start))
            && (from + |os| < MAX_ITERATIONS ==>
                  Occ(r, base, from + |os|).Some?
                  && Stops(r, rangeEnd, from + |os|, Occ(r, base, from + |os|).value))
    decreases MAX_ITERATIONS - from
  {
    hide Occ, PastUntil;
    if from < MAX_ITERATIONS && !Stops(r, rangeEnd, from, Occ(r, base, from).value) {
      RunCollects(r, base, rangeEnd, from + 1);
      NotBeforeStart(r, base, from);
      var t := Occ(r, base, from).value;
      var rest := Run(r, base, HOUR, base, rangeEnd, from + 1).value;
      assert Added(t, HOUR, base, rangeEnd) == [Occurrence(t, t + HOUR)];
      var os := Run(r, base, HOUR, base, rangeEnd, from).value;
      forall i: nat | i < |os|
        ensures Occ(r, base, from + i) == Some(os[i].start) && !Stops(r, rangeEnd, from + i, os[i].start)
      {
        if i > 0 { assert os[i] == rest[i - 1] && from + i == from + 1 + (i - 1); }
      }
    }
  }

  /** The index of the occurrence that gives the due date. */
  ghost function DueIndex(r: Rule, base: int, day: int): Option<nat>
    requires WellFormed(r) && Returns(r, base, (day + 2) * DAY)
  {
    LastBefore(Occurrences(r, base, base, (day + 2) * DAY), (day + 1) * DAY)
  }

  /** What the loop of a day collects are the occurrences it sees, each at its own index. */
  lemma CollectsSeen(r: Rule, base: int, day: int, n: nat)
    requires WellFormed(r) && base > 0 && Returns(r, base, (day + 2) * DAY)
    ensures var os := Occurrences(r, base, base, (day + 2) * DAY);
            && (Seen(r, base, day, n) <==> n < |os|)
            && (n < |os| ==> Occ(r, base, n) == Some(os[n].start))
  {
    hide Occ, Run, PastUntil, OccDay;
    var end := (day + 2) * DAY;
    RunWindowFree(r, base, HOUR, base, end, 0);
    RunCollects(r, base, end, 0);
    var os := Occurrences(r, base, base, end);
    assert os == Run(r, base, HOUR, base, end, 0).value;
    if n < |os| {
      forall j: nat | j <= n ensures Occ(r, base, j).Some? && !Stops(r, end, j, Occ(r, base, j).value) {
        assert Occ(r, base, 0 + j) == Some(os[j].start);
      }
      CollectedIsSeen(r, base, day, n);
    }
    if Seen(r, base, day, n) && n >= |os| {
      ReachedIsAllowed(r, base, n);
      ReachedBefore(r, base, |os|, n);
      ReachedIsAllowed(r, base, |os|);
      NotBeforeStart(r, base, |os|);
      assert OccDay(r, base, |os|) <= day + 1;
      DayBefore(r, base, |os|, day);
    }
  }

  lemma DayBefore(r: Rule, base: int, n: nat, day: int)
    requires WellFormed(r) && Occ(r, base, n).Some?
    ensures OccDay(r, base, n) <= day + 1 <==> Occ(r, base, n).value < (day + 2) * DAY
  {
    hide Occ;
  }

  lemma CollectedIsSeen(r: Rule, base: int, day: int, n: nat)
    requires WellFormed(r) && n < MAX_ITERATIONS
    requires forall j: nat :: j <= n ==> Occ(r, base, j).Some? && !Stops(r, (day + 2) * DAY, j, Occ(r, base, j).value)
    ensures Seen(r, base, day, n)
  {
    hide Occ, PastUntil, OccDay;
    assert !Stops(r, (day + 2) * DAY, n, Occ(r, base, n).value);
    forall j: nat | j <= n ensures OccDay(r, base, j) <= day + 1 { DayBefore(r, base, j, day); }
  }

  /** The due occurrence is the last one the loop sees that is not after the day. */
  lemma DueIndexIs(r: Rule, base: int, day: int)
    requires WellFormed(r) && base > 0 && Returns(r, base, (day + 2) * DAY)
    ensures match DueIndex(r, base, day)
            case None => forall n: nat :: Seen(r, base, day, n) ==> OccDay(r, base, n) > day
            case Some(k) => Seen(r, base, day, k) && OccDay(r, base, k) <= day
                            && forall n: nat :: n > k && Seen(r, base, day, n) ==> OccDay(r, base, n) > day
  {
    hide Occ, Seen, Returns, Answer, LastBefore, StartOfDay;
    var os := Occurrences(r, base, base, (day + 2) * DAY);
    LastBeforeIs(os, (day + 1) * DAY);
    forall n: nat
      ensures Seen(r, base, day, n) <==> n < |os|
      ensures n < |os| ==> (OccDay(r, base, n) <= day <==> StartOfDay(os[n].start) < (day + 1) * DAY)
    {
      CollectsSeen(r, base, day, n);
      if n < |os| { DayOrder(os[n].start, day); }
    }
  }

  lemma DueIndexUnique(r: Rule, base: int, day: int, k: nat)
    requires WellFormed(r) && base > 0 && Returns(r, base, (day + 2) * DAY)
    requires Seen(r, base, day, k) && OccDay(r, base, k) <= day
    requires forall n: nat :: n > k && Seen(r, base, day, n) ==> OccDay(r, base, n) > day
    ensures DueIndex(r, base, day) == Some(k)
  {
    hide Seen, OccDay, DueIndex, Returns;
    DueIndexIs(r, base, day);
  }

  /** The due date is the day of that occurrence. */
  lemma DueDateIs(c: Chore, r: Rule, today: int)
    requires Recurrence(c) == Some(r) && c.createdAt > 0 && Answers(c, today)
    ensures Returns(r, c.createdAt, (DayNumber(today) + 2) * DAY)
    ensures DueDate(c, today) == match DueIndex(r, c.createdAt, DayNumber(today))
                                 case None => None
                                 case Some(k) => Some(OccDay(r, c.createdAt, k) * DAY)
  {
    hide Occ, Recurrence, Returns, Answer, LastBefore, StartOfDay, DayNumber;
    var base, day := c.createdAt, DayNumber(today);
    DayOrder(today, day);
    var os := Occurrences(r, base, base, (day + 2) * DAY);
    if DueIndex(r, base, day).Some? {
      var k := DueIndex(r, base, day).value;
      CollectsSeen(r, base, day, k);
      DayOrder(os[k].start, day);
    }
  }

  // ----- the due date right on every day -----

  /** The due date is the greatest scheduled day up to today, and absent if there is none. */
  ghost predicate DueIsCurrent(c: Chore, r: Rule, today: int)
    requires Recurrence(c) == Some(r) && Answers(c, today)
  {
    match DueDate(c, today)
    case None => forall d :: Scheduled(r, c.createdAt, d) ==> d > DayNumber(today)
    case Some(due) => exists d :: due == d * DAY && CurrentDay(r, c.createdAt, DayNumber(today), d)
  }

  lemma DayScheduled(r: Rule, base: int, d: int)
    requires WellFormed(r)
    ensures Scheduled(r, base, d) <==> exists k: nat :: Allowed(r, base, k) && OccDay(r, base, k) == d
  {
    hide Occ, PastUntil, DayNumber;
    forall k: nat | Allowed(r, base, k) ensures OccDay(r, base, k) == DayNumber(Occ(r, base, k).value) {}
  }

  /** Two occurrences on one day are the same instant. */
  lemma SameDaySameInstant(r: Rule, base: int, j: nat, k: nat)
    requires WellFormed(r) && Occ(r, base, j).Some? && Occ(r, base, k).Some?
    ensures Occ(r, base, j) == Occ(r, base, k) <==> OccDay(r, base, j) == OccDay(r, base, k)
    ensures OccDay(r, base, j) < OccDay(r, base, k) <==> Occ(r, base, j).value < Occ(r, base, k).value
  {
    hide Occ;
    KeepsTimeOfDay(r, base, j);
    KeepsTimeOfDay(r, base, k);
  }

  /** The first occurrence of an allowed day; it is seen on that day and later ones, unless overlooked. */
  lemma FirstIsSeen(r: Rule, base: int, l: nat, day: int) returns (f: nat)
    requires WellFormed(r) && NoneOverlooked(r, base) && Allowed(r, base, l) && OccDay(r, base, l) <= day
    ensures f <= l && Seen(r, base, day, f) && OccDay(r, base, f) == OccDay(r, base, l)
  {
    hide Walk, PastUntil, OccDay, FirstAt;
    f := FirstIndex(r, base, 0, l);
    SameDaySameInstant(r, base, f, l);
    forall j: nat | j <= f
      ensures Occ(r, base, j).Some? && !PastUntil(r, Occ(r, base, j).value) && OccDay(r, base, j) <= day + 1
    {
      if Occ(r, base, j).None? { HangsOn(r, base, j, l); }
      assert !Overlooked(r, base, j, f);
      SameDaySameInstant(r, base, j, f);
      SameDaySameInstant(r, base, f, j);
      if PastUntil(r, Occ(r, base, j).value) && Occ(r, base, j).value <= Occ(r, base, f).value {
        EarlierPastUntil(r, Occ(r, base, j).value, Occ(r, base, f).value);
      }
    }
  }

  /** A latest day up to an index. */
  lemma {:induction false} SomeLatest(r: Rule, base: int, l: nat) returns (h: nat)
    requires WellFormed(r)
    ensures h <= l && LatestDay(r, base, h, l)
  {
    hide OccDay;
    if l == 0 {
      h := 0;
    } else {
      h := SomeLatest(r, base, l - 1);
      if OccDay(r, base, h) < OccDay(r, base, l) { h := l; }
    }
  }

  /** Seeing l on some day, what is seen after it stays below the day after. */
  lemma SeenAfter(r: Rule, base: int, day: int, l: nat, n: nat)
    requires WellFormed(r) && l < n && Seen(r, base, day, l)
    ensures Seen(r, base, day, n) <==> Reached(r, base, n) && StaysBelow(r, base, l, n, day + 1)
  {
    hide Reached, OccDay;
  }

  /** If something seen is later than what is due, and not after the day, it is masked. */
  lemma DueIsMasked(r: Rule, base: int, day: int, k: nat, f: nat) returns (h: nat, top: int)
    requires WellFormed(r) && base > 0 && Returns(r, base, (day + 2) * DAY)
    requires DueIndex(r, base, day) == Some(k) && Seen(r, base, day, f)
    requires OccDay(r, base, k) < OccDay(r, base, f) <= day
    ensures Masked(r, base, f, h, k, top)
  {
    hide Reached, OccDay, DueIndex, Returns;
    DueIndexIs(r, base, day);
    h := SomeLatest(r, base, k);
    top := if OccDay(r, base, h) == day + 1 then day + 1 else OccDay(r, base, h) + 1;
    forall n: nat | n > k && Reached(r, base, n) && StaysBelow(r, base, k, n, top)
      ensures OccDay(r, base, n) >= top
    {
      SeenAfter(r, base, day, k, n);
    }
  }

  /** The due date is right on every day for a rule that overlooks and masks nothing. */
  lemma DueDateIsCurrentDay(c: Chore, r: Rule, today: int)
    requires Recurrence(c) == Some(r) && DueFollows(r, c.createdAt) && c.createdAt > 0 && Answers(c, today)
    ensures DueIsCurrent(c, r, today)
  {
    hide Occ, Recurrence, Returns, OccDay, DueIndex, DueDate, DayNumber, Seen, Answers, Scheduled, NoneMasked, Masked;
    hide NoneOverlooked, DueFollows;
    var base, day := c.createdAt, DayNumber(today);
    DueFollowsIff(r, base);
    DueDateIs(c, r, today);
    DueIndexIs(r, base, day);
    forall d | Scheduled(r, base, d) && d <= day
      ensures DueIndex(r, base, day).Some? && d <= OccDay(r, base, DueIndex(r, base, day).value)
    {
      DayScheduled(r, base, d);
      var l: nat :| Allowed(r, base, l) && OccDay(r, base, l) == d;
      var f := FirstIsSeen(r, base, l, day);
      if DueIndex(r, base, day).Some? && OccDay(r, base, DueIndex(r, base, day).value) < d {
        var h, top := DueIsMasked(r, base, day, DueIndex(r, base, day).value, f);
        NotMasked(r, base, f, h, DueIndex(r, base, day).value, top);
      }
    }
    if DueIndex(r, base, day).Some? {
      var k := DueIndex(r, base, day).value;
      SeenIsAllowed(r, base, day, k);
      DayScheduled(r, base, OccDay(r, base, k));
      assert CurrentDay(r, base, day, OccDay(r, base, k));
    }
  }

  lemma NotMasked(r: Rule, base: int, k: nat, h: nat, l: nat, top: int)
    requires WellFormed(r) && NoneMasked(r, base)
    ensures !Masked(r, base, k, h, l, top)
  {
    hide Masked;
  }

  lemma SeenIsAllowed(r: Rule, base: int, day: int, k: nat)
    requires WellFormed(r) && Seen(r, base, day, k)
    ensures Allowed(r, base, k) && Reached(r, base, k)
  {
    hide Reached, OccDay, Allowed;
    ReachedIsAllowed(r, base, k);
  }

  /** A rule not in order has BYDAY, and so always returns. */
  lemma GoingBackReturns(r: Rule, base: int, k: nat, l: nat, rangeEnd: int)
    requires WellFormed(r) && k < l && Allowed(r, base, l) && OccDay(r, base, k) > OccDay(r, base, l)
    requires Occ(r, base, k).Some?
    ensures WeeklyLaw.ByDayRule(r) && Returns(r, base, rangeEnd)
  {
    hide Occ, OccDay, Allowed, Returns, InOrder, NeverHangs;
    if !WeeklyLaw.ByDayRule(r) {
      NothingGoesBack(r, base);
      InOrderDays(r, base, k, l);
    }
    OthersAlwaysReturn(r, base, rangeEnd);
  }

  /** On the day of an overlooked occurrence the due date is not that day. */
  lemma OverlookedIsWrong(c: Chore, r: Rule, j: nat, l: nat)
    requires Recurrence(c) == Some(r) && c.createdAt > 0 && Overlooked(r, c.createdAt, j, l)
    ensures Answers(c, OccDay(r, c.createdAt, l) * DAY) && !DueIsCurrent(c, r, OccDay(r, c.createdAt, l) * DAY)
  {
    hide Occ, Recurrence, Returns, OccDay, DueIndex, DueDate, StartOfDay, Seen, Scheduled, PastUntil, FirstAt;
    var base, day := c.createdAt, OccDay(r, c.createdAt, l);
    var today := day * DAY;
    DayOrder(today, day);
    GoingBackReturns(r, base, j, l, (day + 2) * DAY);
    DueDateIs(c, r, today);
    DueIndexIs(r, base, day);
    DayScheduled(r, base, day);
    if DueIsCurrent(c, r, today) {
      var k := DueIndex(r, base, day).value;
      SeenIsAllowed(r, base, day, k);
      assert OccDay(r, base, k) == day;
      OverlookedUnseen(r, base, j, l, k);
    }
  }

  lemma OverlookedUnseen(r: Rule, base: int, j: nat, l: nat, n: nat)
    requires WellFormed(r) && Overlooked(r, base, j, l)
    requires OccDay(r, base, n) == OccDay(r, base, l) && Occ(r, base, n).Some?
    ensures !Seen(r, base, OccDay(r, base, l), n)
  {
    hide Occ, OccDay, PastUntil, Counted;
    SameDaySameInstant(r, base, n, l);
  }

  /** On the day before top the due date is the masking, earlier day. */
  lemma MaskedIsWrong(c: Chore, r: Rule, k: nat, h: nat, l: nat, top: int)
    requires Recurrence(c) == Some(r) && c.createdAt > 0 && Masked(r, c.createdAt, k, h, l, top)
    ensures Answers(c, (top - 1) * DAY) && !DueIsCurrent(c, r, (top - 1) * DAY)
  {
    hide Occ, Recurrence, Returns, OccDay, DueIndex, DueDate, StartOfDay, Scheduled, Reached, Allowed;
    var base, day := c.createdAt, top - 1;
    var today := day * DAY;
    DayOrder(today, day);
    ReachedIsAllowed(r, base, l);
    ReachedBefore(r, base, k, l);
    ReachedIsAllowed(r, base, k);
    GoingBackReturns(r, base, k, l, (day + 2) * DAY);
    DueDateIs(c, r, today);
    forall n: nat | n > l && Seen(r, base, day, n) ensures OccDay(r, base, n) > day { SeenAfter(r, base, day, l, n); }
    DueIndexUnique(r, base, day, l);
    DayScheduled(r, base, OccDay(r, base, k));
  }

  /** For every rule, the due date is right on every day exactly when BYDAY overlooks and masks nothing. */
  lemma DueAlwaysCurrentIff(c: Chore, r: Rule)
    requires Recurrence(c) == Some(r) && c.createdAt > 0
    ensures (forall today :: Answers(c, today) ==> DueIsCurrent(c, r, today)) <==> DueFollows(r, c.createdAt)
  {
    hide Recurrence, DueIsCurrent, Answers, DueFollows, Overlooked, Masked;
    if DueFollows(r, c.createdAt) {
      forall today | Answers(c, today) ensures DueIsCurrent(c, r, today) { DueDateIsCurrentDay(c, r, today); }
    } else {
      DueFollowsIff(r, c.createdAt);
      if j: nat, l: nat :| Overlooked(r, c.createdAt, j, l) {
        OverlookedIsWrong(c, r, j, l);
      } else {
        var k: nat, h: nat, l: nat, top: int :| Masked(r, c.createdAt, k, h, l, top);
        MaskedIsWrong(c, r, k, h, l, top);
      }
    }
  }


  /**
    Status by day numbers alone: not due before the first scheduled day; otherwise
    completed iff the last completion is not before the due day, and if not then
    pending on the due day itself and overdue after it.
  */
  lemma StatusIs(c: Chore, r: Rule, last: Option<int>, today: int)
    requires Recurrence(c) == Some(r) && DueFollows(r, c.createdAt) && c.createdAt > 0 && Answers(c, today)
    ensures StatusOn(c, last, today) == NotDue <==> forall d :: Scheduled(r, c.createdAt, d) ==> d > DayNumber(today)
    ensures forall d :: CurrentDay(r, c.createdAt, DayNumber(today), d) ==>
              StatusOn(c, last, today) ==
                if last.Some? && DayNumber(last.value) >= d then Completed
                else if d == DayNumber(today) then Pending else Overdue
  {
    hide Scheduled, StartOfDay, DayNumber, DueFollows, Recurrence, Returns, DueDate;
    DueDateIsCurrentDay(c, r, today);
    DayOrder(today, DayNumber(today));
    if last.Some? { DayOrder(last.value, DayNumber(today)); }
  }

  /**
    A chore without a rule, or with one that cannot be read, is completed once it was
    ever done and pending until then, on every day, and has no due date. On a date it is
    due if it has no rule, and not if its rule cannot be read.
  */
  lemma WithoutRule(c: Chore, last: Option<int>, today: int)
    requires c.recurrenceRule == "" || Parsed(c.recurrenceRule).Err?
    ensures Answers(c, today) && AnswersOnDate(c, today)
    ensures StatusOn(c, last, today) == if last.Some? then Completed else Pending
    ensures DueDate(c, today).None?
    ensures DueOn(c, today) <==> c.recurrenceRule == ""
  {
    hide Parsed;
  }

  // ----- the due date as days pass -----

  /** What is seen on a day is seen on the next. */
  lemma StillSeen(r: Rule, base: int, day: int, n: nat)
    requires WellFormed(r) && Seen(r, base, day, n)
    ensures Seen(r, base, day + 1, n)
  {
    hide Reached, OccDay;
  }

  /** The first occurrence not seen on a day, up to one that is reached and seen on the next. */
  lemma {:induction false} FirstUnseen(r: Rule, base: int, day: int, from: nat, l: nat) returns (m: nat)
    requires WellFormed(r) && from <= l && !Seen(r, base, day, l) && Seen(r, base, day + 1, l)
    requires forall n: nat :: n < from ==> Seen(r, base, day, n)
    ensures from <= m <= l && OccDay(r, base, m) == day + 2
    ensures forall n: nat :: n < m ==> Seen(r, base, day, n)
    decreases l - from
  {
    hide OccDay, Reached;
    if Seen(r, base, day, from) {
      m := FirstUnseen(r, base, day, from + 1, l);
    } else {
      m := from;
      ReachedBefore(r, base, m, l);
      if OccDay(r, base, m) <= day + 1 {
        forall j: nat | j <= m ensures OccDay(r, base, j) <= day + 1 { if j < m { assert Seen(r, base, day, j); } }
      }
    }
  }

  /** If the due date goes back from a day to the next, three occurrences are to blame. */
  lemma GoesBackIsUndoes(r: Rule, base: int, day: int, k: nat, l: nat) returns (m: nat)
    requires WellFormed(r) && base > 0 && Returns(r, base, (day + 2) * DAY) && Returns(r, base, (day + 3) * DAY)
    requires DueIndex(r, base, day) == Some(k) && DueIndex(r, base, day + 1) == Some(l)
    requires OccDay(r, base, l) < OccDay(r, base, k)
    ensures Undoes(r, base, k, m, l)
  {
    hide Reached, OccDay, DueIndex, Returns, Occ;
    DueIndexIs(r, base, day);
    DueIndexIs(r, base, day + 1);
    StillSeen(r, base, day, k);
    assert k < l;
    forall n: nat | n <= k ensures Seen(r, base, day, n) { ReachedBefore(r, base, n, k); }
    m := FirstUnseen(r, base, day, k + 1, l);
    forall n: nat | n < m ensures OccDay(r, base, n) < OccDay(r, base, m) { assert Seen(r, base, day, n); }
    forall n: nat | n > l && Reached(r, base, n) && StaysBelow(r, base, l, n, OccDay(r, base, m))
      ensures OccDay(r, base, n) >= OccDay(r, base, m)
    {
      SeenAfter(r, base, day + 1, l, n);
    }
  }

  /** The other way round, on the day two days before the middle one. */
  lemma UndoesGoesBack(r: Rule, base: int, k: nat, m: nat, l: nat, day: int)
    requires WellFormed(r) && base > 0 && Undoes(r, base, k, m, l) && day == OccDay(r, base, m) - 2
    requires Returns(r, base, (day + 2) * DAY) && Returns(r, base, (day + 3) * DAY)
    ensures DueIndex(r, base, day) == Some(k) && DueIndex(r, base, day + 1) == Some(l)
  {
    hide Reached, OccDay, DueIndex, Returns, Occ;
    ReachedBefore(r, base, k, l);
    forall n: nat | n > k && Seen(r, base, day, n) ensures OccDay(r, base, n) > day {
      assert n < m;
    }
    DueIndexUnique(r, base, day, k);
    assert Seen(r, base, day + 1, l);
    forall n: nat | n > l && Seen(r, base, day + 1, n) ensures OccDay(r, base, n) > day + 1 {
      SeenAfter(r, base, day + 1, l, n);
    }
    DueIndexUnique(r, base, day + 1, l);
  }

  ghost predicate NoneUndoes(r: Rule, base: int)
    requires WellFormed(r)
  {
    forall k: nat, m: nat, l: nat :: !Undoes(r, base, k, m, l)
  }

  /** From one day to a later one the due occurrence neither disappears nor goes back. */
  lemma {:induction false} DueIndexMonotone(r: Rule, base: int, day: int, later: int)
    requires WellFormed(r) && base > 0 && NoneUndoes(r, base) && day <= later && Returns(r, base, (later + 2) * DAY)
    ensures Returns(r, base, (day + 2) * DAY)
    ensures DueIndex(r, base, day).Some? ==>
              DueIndex(r, base, later).Some?
              && OccDay(r, base, DueIndex(r, base, day).value) <= OccDay(r, base, DueIndex(r, base, later).value)
    decreases later - day
  {
    hide OccDay, DueIndex, Run, Undoes;
    ShorterReturns(r, base, (day + 2) * DAY, (later + 2) * DAY, 0);
    if day < later {
      DueIndexMonotone(r, base, day + 1, later);
      if DueIndex(r, base, day).Some? {
        var k := DueIndex(r, base, day).value;
        StaysDue(r, base, day, k);
        var l := DueIndex(r, base, day + 1).value;
        if OccDay(r, base, l) < OccDay(r, base, k) {
          var m := GoesBackIsUndoes(r, base, day, k, l);
          assert false;
        }
      }
    }
  }

  lemma StaysDue(r: Rule, base: int, day: int, k: nat)
    requires WellFormed(r) && base > 0 && Returns(r, base, (day + 2) * DAY) && Returns(r, base, (day + 3) * DAY)
    requires DueIndex(r, base, day) == Some(k)
    ensures DueIndex(r, base, day + 1).Some?
  {
    hide OccDay, DueIndex, Returns, Seen;
    DueIndexIs(r, base, day);
    DueIndexIs(r, base, day + 1);
    StillSeen(r, base, day, k);
  }

  /** The due date never goes back, and never disappears, as days pass. */
  lemma DueDateMonotone(c: Chore, r: Rule, today: int, later: int)
    requires Recurrence(c) == Some(r) && NeverUndoes(r, c.createdAt) && c.createdAt > 0 && today <= later
    requires Answers(c, later)
    ensures Answers(c, today)
    ensures DueDate(c, today).Some? ==> DueDate(c, later).Some? && DueDate(c, today).value <= DueDate(c, later).value
  {
    hide StartOfDay, DayNumber, Recurrence, DueDate, OccDay, DueIndex, Returns, NeverUndoes, Undoes;
    DayOrder(today, 0);
    DayMonotone(today, later);
    NeverUndoesIff(r, c.createdAt);
    DueDateIs(c, r, later);
    DueIndexMonotone(r, c.createdAt, DayNumber(today), DayNumber(later));
    DueDateIs(c, r, today);
  }

  lemma DayMonotone(a: int, b: int)
    ensures a <= b ==> DayNumber(a) <= DayNumber(b)
  {
  }

  /** On no two days does the due date disappear or go back. */
  ghost predicate NeverGoesBackInTime(c: Chore) {
    forall today, later :: today <= later && Answers(c, today) && Answers(c, later) && DueDate(c, today).Some? ==>
      DueDate(c, later).Some? && DueDate(c, today).value <= DueDate(c, later).value
  }

  ghost predicate Undone(c: Chore, last: Option<int>, today: int)
    requires Answers(c, today)
  {
    StatusOn(c, last, today) in {Pending, Overdue}
  }

  /** On no two days does an unfinished chore become finished, or not due, without a new completion. */
  ghost predicate NeverUndoesItself(c: Chore) {
    forall last, today, later :: today <= later && Answers(c, today) && Answers(c, later) && Undone(c, last, today) ==>
      Undone(c, last, later)
  }

  lemma UndoesIsSeen(c: Chore, r: Rule, k: nat, m: nat, l: nat)
    requires Recurrence(c) == Some(r) && c.createdAt > 0 && Undoes(r, c.createdAt, k, m, l)
    ensures var base, day := c.createdAt, OccDay(r, c.createdAt, m) - 2;
            && Answers(c, day * DAY) && Answers(c, (day + 1) * DAY)
            && DueDate(c, day * DAY) == Some(OccDay(r, base, k) * DAY)
            && DueDate(c, (day + 1) * DAY) == Some(OccDay(r, base, l) * DAY)
            && OccDay(r, base, l) < OccDay(r, base, k)
  {
    hide Occ, Reached, Recurrence, Returns, OccDay, DueIndex, DueDate, StartOfDay, LastBelow;
    var base, day := c.createdAt, OccDay(r, c.createdAt, m) - 2;
    DayOrder(day * DAY, day);
    DayOrder((day + 1) * DAY, day + 1);
    ReachedIsAllowed(r, base, l);
    ReachedBefore(r, base, k, l);
    ReachedIsAllowed(r, base, k);
    GoingBackReturns(r, base, k, l, (day + 2) * DAY);
    GoingBackReturns(r, base, k, l, (day + 3) * DAY);
    UndoesGoesBack(r, base, k, m, l, day);
    DueDateIs(c, r, day * DAY);
    DueDateIs(c, r, (day + 1) * DAY);
  }

  /** For every rule, the due date never goes back exactly when no three entries of a week undo it. */
  lemma DueNeverGoesBackIff(c: Chore, r: Rule)
    requires Recurrence(c) == Some(r) && c.createdAt > 0
    ensures NeverGoesBackInTime(c) <==> NeverUndoes(r, c.createdAt)
  {
    hide Recurrence, DueDate, Answers, NeverUndoes, Undoes, OccDay;
    if NeverUndoes(r, c.createdAt) {
      forall today, later | today <= later && Answers(c, today) && Answers(c, later) && DueDate(c, today).Some?
        ensures DueDate(c, later).Some? && DueDate(c, today).value <= DueDate(c, later).value
      {
        DueDateMonotone(c, r, today, later);
      }
    } else {
      NeverUndoesIff(r, c.createdAt);
      var k: nat, m: nat, l: nat :| Undoes(r, c.createdAt, k, m, l);
      UndoesIsSeen(c, r, k, m, l);
    }
  }

  /** Status from the due date. */
  lemma StatusByDue(c: Chore, r: Rule, last: Option<int>, today: int)
    requires Recurrence(c) == Some(r) && Answers(c, today)
    ensures StatusOn(c, last, today) in {Pending, Overdue}
       <==> DueDate(c, today).Some? && (last.Some? ==> StartOfDay(last.value) < DueDate(c, today).value)
  {
    hide DueDate, Recurrence, Returns, StartOfDay;
  }

  /**
    Without a new completion a chore that is pending or overdue stays so: on every
    later day it is pending or overdue again, never completed and never not due.
  */
  lemma UndoneStaysUndone(c: Chore, r: Rule, last: Option<int>, today: int, later: int)
    requires Recurrence(c) == Some(r) && NeverUndoes(r, c.createdAt) && c.createdAt > 0 && today <= later
    requires Answers(c, later)
    ensures Answers(c, today)
    ensures StatusOn(c, last, today) in {Pending, Overdue} ==> StatusOn(c, last, later) in {Pending, Overdue}
  {
    hide StartOfDay, Recurrence, DueDate, StatusOn, Answers, NeverUndoes;
    DueDateMonotone(c, r, today, later);
    StatusByDue(c, r, last, today);
    StatusByDue(c, r, last, later);
  }

  /** And it does on every pair of days, for every last completion, exactly under that condition. */
  lemma UndoneStaysUndoneIff(c: Chore, r: Rule)
    requires Recurrence(c) == Some(r) && c.createdAt > 0
    ensures NeverUndoesItself(c) <==> NeverUndoes(r, c.createdAt)
  {
    hide Recurrence, DueDate, Answers, NeverUndoes, Undoes, OccDay, StatusOn, StartOfDay;
    if NeverUndoes(r, c.createdAt) {
      forall last, today, later
        | today <= later && Answers(c, today) && Answers(c, later) && Undone(c, last, today)
        ensures Undone(c, last, later)
      {
        UndoneStaysUndone(c, r, last, today, later);
      }
    } else {
      NeverUndoesIff(r, c.createdAt);
      var k: nat, m: nat, l: nat :| Undoes(r, c.createdAt, k, m, l);
      UndoesIsSeen(c, r, k, m, l);
      var day := OccDay(r, c.createdAt, m) - 2;
      var done := OccDay(r, c.createdAt, l) * DAY;
      DayOrder(done, 0);
      StatusByDue(c, r, Some(done), day * DAY);
      StatusByDue(c, r, Some(done), (day + 1) * DAY);
      assert Undone(c, Some(done), day * DAY) && !Undone(c, Some(done), (day + 1) * DAY);
    }
  }

  // ----- due on a date -----

  /** The entries of the expansion and the scheduled occurrences are the same thing. */
  lemma OccurrenceIsScheduled(r: Rule, base: int, rangeStart: int, rangeEnd: int, o: Occurrence)
    requires WellFormed(r) && FirstsInOrder(r, base) && base > 0 && Returns(r, base, rangeEnd)
    ensures o in Occurrences(r, base, rangeStart, rangeEnd)
       ==> Scheduled(r, base, DayNumber(o.start)) && Overlaps(o.start, o.start + HOUR, rangeStart, rangeEnd)
           && TimeOfDay(o.start) == TimeOfDay(base)
  {
    hide Occ, Run, Answer, PastUntil, FirstsInOrder;
    AnswerIsAllowed(r, base, HOUR, rangeStart, rangeEnd, o);
    if o in Occurrences(r, base, rangeStart, rangeEnd) {
      var k: nat :| Kept(r, base, HOUR, rangeStart, rangeEnd, k) && Occ(r, base, k).value == o.start;
      KeepsTimeOfDay(r, base, k);
    }
  }

  lemma ScheduledHasOccurrence(r: Rule, base: int, rangeStart: int, rangeEnd: int, d: int) returns (o: Occurrence)
    requires WellFormed(r) && FirstsInOrder(r, base) && base > 0 && Returns(r, base, rangeEnd) && Scheduled(r, base, d)
    ensures DayNumber(o.start) == d && o.start >= base && TimeOfDay(o.start) == TimeOfDay(base)
    ensures Overlaps(o.start, o.start + HOUR, rangeStart, rangeEnd) ==> o in Occurrences(r, base, rangeStart, rangeEnd)
  {
    hide Occ, Run, Answer, PastUntil, FirstsInOrder, DayNumber;
    var k: nat :| Allowed(r, base, k) && DayNumber(Occ(r, base, k).value) == d;
    o := Occurrence(Occ(r, base, k).value, Occ(r, base, k).value + HOUR);
    NotBeforeStart(r, base, k);
    KeepsTimeOfDay(r, base, k);
    AnswerIsAllowed(r, base, HOUR, rangeStart, rangeEnd, o);
  }

  /**
    IsDueOnDate holds on the scheduled days, and also on the day after one when the
    chore's time of day is past 23:00:00, because the hour given to it runs over midnight.
  */
  lemma DueOnIs(c: Chore, r: Rule, date: int)
    requires Recurrence(c) == Some(r) && FirstsListedInOrder(r, c.createdAt) && c.createdAt > 0
    requires AnswersOnDate(c, date)
    ensures DueOn(c, date)
       <==> || Scheduled(r, c.createdAt, DayNumber(date))
            || (TimeOfDay(c.createdAt) > 82800 && Scheduled(r, c.createdAt, DayNumber(date) - 1))
  {
    hide Answer, Run, Occ, Scheduled, StartOfDay, FirstsInOrder, Parsed, Occurrences, Returns, FirstsListedInOrder;
    var base, day := c.createdAt, DayNumber(date);
    FirstsInOrderIff(r, base);
    DayOrder(date, day);
    var from, to := StartOfDay(date), StartOfDay(date) + 24 * HOUR;
    var os := Occurrences(r, base, from, to);
    if os != [] {
      assert os[0] in os;
      OccurrenceIsScheduled(r, base, from, to, os[0]);
    }
    if Scheduled(r, base, day) {
      var o := ScheduledHasOccurrence(r, base, from, to, day);
    }
    if TimeOfDay(base) > 82800 && Scheduled(r, base, day - 1) {
      var o := ScheduledHasOccurrence(r, base, from, to, day - 1);
    }
  }

  /** The loop stops at an occurrence listed before an earlier one, so the day of that one is not due. */
  lemma DueOnIsWrong(c: Chore, r: Rule, k: nat, l: nat)
    requires Recurrence(c) == Some(r) && WeeklyLaw.ByDayRule(r) && TimeOfDay(c.createdAt) <= 82800
    requires k < l && Allowed(r, c.createdAt, l) && FirstAt(r, c.createdAt, l) && Occ(r, c.createdAt, k).Some?
    requires Occ(r, c.createdAt, k).value > Occ(r, c.createdAt, l).value
    ensures AnswersOnDate(c, Occ(r, c.createdAt, l).value) && !DueOn(c, Occ(r, c.createdAt, l).value)
  {
    hide Occ, PastUntil, StartOfDay, Recurrence, Run, Parsed;
    var base, date := c.createdAt, Occ(r, c.createdAt, l).value;
    var from, to := StartOfDay(date), StartOfDay(date) + 24 * HOUR;
    OthersAlwaysReturn(r, base, to);
    StartOfDayIs(date);
    KeepsTimeOfDay(r, base, k);
    KeepsTimeOfDay(r, base, l);
    assert Occ(r, base, k).value >= to;
    var os := Occurrences(r, base, from, to);
    if os != [] {
      RunWindowFree(r, base, HOUR, from, to, 0);
      RunHolds(r, base, HOUR, from, to, 0, k, os[0]);
      assert os[0] in os;
      AnswerOverlaps(r, base, HOUR, from, to, os[0]);
    }
    RecursByRule(c);
  }

  lemma RecursByRule(c: Chore)
    requires Recurrence(c).Some?
    ensures c.recurrenceRule != ""
  {
    hide Parsed;
  }

  /**
    For chores created at or before 23:00:00 it holds on exactly the scheduled days if
    and only if no first entry of BYDAY is overtaken.
  */
  lemma DueOnAlwaysRightIff(c: Chore, r: Rule)
    requires Recurrence(c) == Some(r) && c.createdAt > 0 && TimeOfDay(c.createdAt) <= 82800
    ensures (forall date :: AnswersOnDate(c, date) ==> (DueOn(c, date) <==> Scheduled(r, c.createdAt, DayNumber(date))))
       <==> FirstsListedInOrder(r, c.createdAt)
  {
    hide Occ, Recurrence, DueOn, PastUntil, AnswersOnDate, DayNumber, FirstsListedInOrder, FirstAt;
    var base := c.createdAt;
    FirstsInOrderIff(r, base);
    if FirstsListedInOrder(r, base) {
      forall date | AnswersOnDate(c, date)
        ensures DueOn(c, date) <==> Scheduled(r, base, DayNumber(date))
      {
        DueOnIs(c, r, date);
      }
    } else {
      if !WeeklyLaw.ByDayRule(r) { NothingGoesBack(r, base); }
      var k: nat, l: nat :| k < l && Allowed(r, base, l) && FirstAt(r, base, l) && Occ(r, base, k).Some?
        && Occ(r, base, k).value > Occ(r, base, l).value;
      DueOnIsWrong(c, r, k, l);
      assert Scheduled(r, base, DayNumber(Occ(r, base, l).value));
    }
  }

  /** For a chore created at or before 23:00:00 it is due on a date iff that is its due date then. */
  lemma DueOnDateIffDueDate(c: Chore, r: Rule, date: int)
    requires Recurrence(c) == Some(r) && c.createdAt > 0 && TimeOfDay(c.createdAt) <= 82800
    requires FirstsListedInOrder(r, c.createdAt) && DueFollows(r, c.createdAt)
    requires AnswersOnDate(c, date) && Answers(c, date)
    ensures DueOn(c, date) <==> DueDate(c, date) == Some(StartOfDay(date))
  {
    hide Scheduled, StartOfDay, DayNumber, TimeOfDay, Recurrence, DueDate, DueOn, Returns, DueFollows;
    hide FirstsListedInOrder;
    DueOnIs(c, r, date);
    DueDateIsCurrentDay(c, r, date);
    DayOrder(date, DayNumber(date));
  }

  // ----- a chore that undoes itself -----

  /** Tuesday, Sunday, Monday, in that order. */
  function TuSuMo(): Rule {
    Rule(Weekly, 1, [2, 0, 1], 0, 0, None)
  }

  /** A rule as the user writes it, for a chore created on Monday 1 January 2024 at 10:00. */
  function Unsorted(): Chore {
    Chore(Printed(TuSuMo()), Date(2024, 1, 1, 10, 0, 0))
  }

  lemma UnsortedRule()
    ensures Recurrence(Unsorted()) == Some(TuSuMo())
  {
    hide Parsed, Printed;
    RRuleLaws.RoundTripIff(TuSuMo());
    assert Parsed("") == Err("empty rule") by { hide *; EmptyRule(); }
  }

  lemma EmptyRule()
    ensures Parsed("") == Err("empty rule")
  {
  }

  lemma FirstFour(base: int)
    requires base == 738885 * DAY + 36000
    ensures Occ(TuSuMo(), base, 0) == Some(base + DAY) && Occ(TuSuMo(), base, 1) == Some(base + 6 * DAY)
    ensures Occ(TuSuMo(), base, 2) == Some(base) && Occ(TuSuMo(), base, 3) == Some(base + 8 * DAY)
  {
    hide Occ;
    var r := TuSuMo();
    assert WeeklyLaw.WeekNumber(base) == 105555 && TimeOfDay(base) == 36000;
    assert WeeklyLaw.Slot(r, base, 0, 0) == base + DAY && WeeklyLaw.Slot(r, base, 0, 1) == base + 6 * DAY;
    assert WeeklyLaw.Slot(r, base, 0, 2) == base && WeeklyLaw.Slot(r, base, 1, 0) == base + 8 * DAY;
    hide WeeklyLaw.Slot;
    assert WeeklyLaw.Open(r, base, 1) == 1 && WeeklyLaw.Open(r, base, 2) == 2 && WeeklyLaw.Open(r, base, 3) == 3;
    WeeklyLaw.RankOccurs(r, base, 0, 0);
    WeeklyLaw.RankOccurs(r, base, 0, 1);
    WeeklyLaw.RankOccurs(r, base, 0, 2);
    WeeklyLaw.RankOccurs(r, base, 1, 0);
  }

  lemma RunAdds(r: Rule, base: int, duration: int, a: int, b: int, k: nat, o: Occurrence, rest: seq<Occurrence>)
    requires WellFormed(r) && k < MAX_ITERATIONS && Occ(r, base, k) == Some(o.start) && !Stops(r, b, k, o.start)
    requires o.end == o.start + duration && Overlaps(o.start, o.end, a, b)
    requires Run(r, base, duration, a, b, k + 1) == Some(rest)
    ensures Run(r, base, duration, a, b, k) == Some([o] + rest)
  {
    hide Occ, Stops;
  }

  /** On Tuesday Sunday ends the loop; on Saturday the loop reaches the Monday listed after it. */
  lemma TwoAnswers(base: int)
    requires base == 738885 * DAY + 36000
    ensures Returns(TuSuMo(), base, 738888 * DAY) && Returns(TuSuMo(), base, 738892 * DAY)
    ensures Occurrences(TuSuMo(), base, base, 738888 * DAY) == [Occurrence(base + DAY, base + DAY + HOUR)]
    ensures Occurrences(TuSuMo(), base, base, 738892 * DAY)
         == [Occurrence(base + DAY, base + DAY + HOUR), Occurrence(base + 6 * DAY, base + 6 * DAY + HOUR),
             Occurrence(base, base + HOUR)]
  {
    hide Occ;
    var r := TuSuMo();
    FirstFour(base);
    var (x, y, z) := (Occurrence(base + DAY, base + DAY + HOUR), Occurrence(base + 6 * DAY, base + 6 * DAY + HOUR),
                      Occurrence(base, base + HOUR));
    assert Run(r, base, HOUR, base, 738888 * DAY, 1) == Some([]);
    RunAdds(r, base, HOUR, base, 738888 * DAY, 0, x, []);
    assert Run(r, base, HOUR, base, 738892 * DAY, 3) == Some([]);
    RunAdds(r, base, HOUR, base, 738892 * DAY, 2, z, []);
    RunAdds(r, base, HOUR, base, 738892 * DAY, 1, y, [z] + []);
    RunAdds(r, base, HOUR, base, 738892 * DAY, 0, x, [y] + ([z] + []));
    hide Run;
    assert [x] + ([y] + ([z] + [])) == [x, y, z] && [x] + [] == [x];
    RunWindowFree(r, base, HOUR, base, 738888 * DAY, 0);
    RunWindowFree(r, base, HOUR, base, 738892 * DAY, 0);
  }

  /**
    A witness that order is needed: done on Monday, the chore is pending on Tuesday with
    Tuesday's due date, and on Saturday it is completed again, due on the Monday before.
  */
  lemma MayUndoItself()
    ensures var c, tuesday, saturday := Unsorted(), Date(2024, 1, 2, 12, 0, 0), Date(2024, 1, 6, 12, 0, 0);
            var done := Some(Date(2024, 1, 1, 11, 0, 0));
            && Answers(c, tuesday) && Answers(c, saturday)
            && DueDate(c, tuesday) == Some(Date(2024, 1, 2, 0, 0, 0)) && StatusOn(c, done, tuesday) == Pending
            && DueDate(c, saturday) == Some(Date(2024, 1, 1, 0, 0, 0)) && StatusOn(c, done, saturday) == Completed
  {
    hide Date, Recurrence, StartOfDay, Occurrences, Returns, Parsed, Printed;
    January(1, 0);
    January(1, 10);
    January(1, 11);
    January(2, 0);
    January(2, 12);
    January(6, 12);
    var base := Date(2024, 1, 1, 10, 0, 0);
    UnsortedRule();
    TwoAnswers(base);
    StartOfDayIs(Date(2024, 1, 2, 12, 0, 0));
    StartOfDayIs(Date(2024, 1, 6, 12, 0, 0));
    StartOfDayIs(Date(2024, 1, 1, 11, 0, 0));
    StartOfDayIs(base);
    StartOfDayIs(base + DAY);
  }
}
