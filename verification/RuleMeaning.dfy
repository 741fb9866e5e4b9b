/** Printing a rule and parsing it again changes no expansion, even where it drops a fraction of UNTIL. */
module RuleMeaning {
  import opened Calendar
  import opened Rules
  import opened Iteration
  import opened Expansion
  import opened RRule
  import RRuleLaws

  /** Two rules that differ at most in UNTIL. */
  predicate SameWalkers(r: Rule, q: Rule) {
    q == r.(until := q.until)
  }

  lemma {:induction false} SameFirstInWeek(r: Rule, q: Rule, base: int, monday: int, i: nat)
    requires SameWalkers(r, q) && i <= |r.byDay|
    ensures FirstInWeek(r, base, monday, i) == FirstInWeek(q, base, monday, i)
    decreases |r.byDay| - i
  {
    hide Candidate;
    if i < |r.byDay| { SameFirstInWeek(r, q, base, monday, i + 1); }
  }

  lemma {:induction false} SameFindNext(r: Rule, q: Rule, base: int, monday: int, i: nat)
    requires SameWalkers(r, q) && WellFormed(r) && i < |r.byDay|
    ensures FindNext(r, base, monday, i) == FindNext(q, base, monday, i)
    decreases base + DAY - monday
  {
    hide Candidate, WeekStart, AddDate;
    SameFirstInWeek(r, q, base, monday, i);
    if FirstInWeek(r, base, monday, i) == |r.byDay| {
      SkippedWeekIsEarly(r, base, monday, r.byDay[i]);
      SameFindNext(r, q, base, NextWeek(r, monday), 0);
    }
  }

  lemma SameAdvance(r: Rule, q: Rule, base: int, c: Cursor)
    requires SameWalkers(r, q) && WellFormed(r)
    ensures Advance(r, base, c) == Advance(q, base, c)
  {
    hide Candidate, WeekStart, AddDate, FindNext, Date, Fits, MonthTurns, YearTurns, Day, IsLeapDay;
    if r.freq == Weekly && |r.byDay| > 0 {
      SameFindNext(r, q, base, WeekStart(base), 0);
      SameFindNext(r, q, base, NextWeek(r, c.current), 0);
      if c.weekDayIdx + 1 < |r.byDay| { SameFindNext(r, q, base, c.current, c.weekDayIdx + 1); }
    }
  }

  lemma {:induction false} SameWalk(r: Rule, q: Rule, base: int, k: nat)
    requires SameWalkers(r, q) && WellFormed(r)
    ensures Walk(r, base, k) == Walk(q, base, k)
  {
    hide Advance;
    SameAdvance(r, q, base, Cursor(base, 0, false));
    if k > 0 {
      SameWalk(r, q, base, k - 1);
      if Walk(r, base, k - 1).Some? { SameAdvance(r, q, base, Walk(r, base, k - 1).value.0); }
    }
  }

  lemma {:induction false} SameRun(r: Rule, q: Rule, base: int, duration: int, rangeStart: int, rangeEnd: int, k: nat)
    requires WellFormed(r) && SameWalkers(r, q) && forall t :: PastUntil(r, t) <==> PastUntil(q, t)
    ensures Run(r, base, duration, rangeStart, rangeEnd, k) == Run(q, base, duration, rangeStart, rangeEnd, k)
    decreases MAX_ITERATIONS - k
  {
    hide Walk, PastUntil;
    if k < MAX_ITERATIONS {
      SameWalk(r, q, base, k);
      SameRun(r, q, base, duration, rangeStart, rangeEnd, k + 1);
    }
  }

  /** A whole second lies after an instant whatever the instant's fraction is. */
  lemma FractionIsInvisible(t: int, u: Instant)
    ensures After(t, u) <==> After(t, Instant(u.sec, 0))
  {
  }

  /**
    For every string Parse accepts, what String prints for it parses to a rule with
    the same occurrences: Expand gives the same answer on every window.
  */
  lemma ReparsingKeepsMeaning(s: string, base: int, duration: int, rangeStart: int, rangeEnd: int)
    requires Parsed(s).Ok?
    ensures var again := Parsed(Printed(Parsed(s).value));
            && again.Ok? && WellFormed(Parsed(s).value) && WellFormed(again.value)
            && Run(Parsed(s).value, base, duration, rangeStart, rangeEnd, 0)
               == Run(again.value, base, duration, rangeStart, rangeEnd, 0)
  {
    hide Parsed, Printed, Run, After, RRuleLaws.Legible;
    var r := Parsed(s).value;
    RRuleLaws.ParseAccepts(s);
    RRuleLaws.ParseThenPrint(s);
    var q := RRuleLaws.Reread(r);
    forall t ensures PastUntil(r, t) <==> PastUntil(q, t) {
      if r.until.Some? { FractionIsInvisible(t, r.until.value); }
    }
    SameRun(r, q, base, duration, rangeStart, rangeEnd, 0);
  }
}
