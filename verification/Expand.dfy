/** Expand: the occurrences of a rule that overlap a half-open window. */
module Expansion {
  import opened Wrappers
  import opened Rules
  import opened Iteration

  datatype Occurrence = Occurrence(start: int, end: int)

  /** Whether a whole second lies after an instant. */
  predicate After(t: int, u: Instant) {
    t > u.sec || (t == u.sec && 0 > u.nano)
  }

  predicate PastUntil(r: Rule, t: int) {
    r.until.Some? && After(t, r.until.value)
  }

  predicate Overlaps(start: int, end: int, rangeStart: int, rangeEnd: int) {
    start < rangeEnd && end > rangeStart
  }

  /** The loop of Expand ends at occurrence k, which starts at t. */
  predicate Stops(r: Rule, rangeEnd: int, k: nat, t: int) {
    t == 0 || PastUntil(r, t) || t >= rangeEnd || (r.count > 0 && k + 1 > r.count)
  }

  /** What an occurrence that starts at t adds to the result. */
  function Added(t: int, duration: int, rangeStart: int, rangeEnd: int): seq<Occurrence> {
    if Overlaps(t, t + duration, rangeStart, rangeEnd) then [Occurrence(t, t + duration)] else []
  }

  /** What the loop of Expand still adds from occurrence k on; None if an advance it makes hangs. */
  ghost function Run(r: Rule, base: int, duration: int, rangeStart: int, rangeEnd: int, k: nat): Option<seq<Occurrence>>
    requires WellFormed(r)
    decreases MAX_ITERATIONS - k
  {
    if k >= MAX_ITERATIONS then Some([])
    else if Occ(r, base, k).None? then None
    else
      var t := Occ(r, base, k).value;
      if Stops(r, rangeEnd, k, t) then Some([])
      else
        var rest := Run(r, base, duration, rangeStart, rangeEnd, k + 1);
        if rest.None? then None else Some(Added(t, duration, rangeStart, rangeEnd) + rest.value)
  }

  /** Expand returns: no advance it makes runs for ever. */
  ghost predicate Returns(r: Rule, base: int, rangeEnd: int)
    requires WellFormed(r)
  {
    Run(r, base, 0, 0, rangeEnd, 0).Some?
  }

  /** The answer of Expand where it returns. */
  ghost function Answer(r: Rule, base: int, duration: int, rangeStart: int, rangeEnd: int): seq<Occurrence>
    requires WellFormed(r) && Returns(r, base, rangeEnd)
  {
    hide Run;
    RunWindowFree(r, base, duration, rangeStart, rangeEnd, 0);
    Run(r, base, duration, rangeStart, rangeEnd, 0).value
  }

  method Expand(rule: Rule, eventStart: int, eventEnd: int, rangeStart: int, rangeEnd: int)
    returns (results: seq<Occurrence>)
    requires WellFormed(rule) && Returns(rule, eventStart, rangeEnd)
    ensures results == Answer(rule, eventStart, eventEnd - eventStart, rangeStart, rangeEnd)
  {
    hide CursorBefore, Advance, Occ, After, Run, Remaining;
    var duration := eventEnd - eventStart;
    results := [];
    var count := 0;
    ghost var whole := AllRemains(rule, eventStart, duration, rangeStart, rangeEnd);
    NoAdvanceYet(rule, eventStart);
    var iter := new Iterator(rule, eventStart);
    while true
      invariant iter.rule == rule && iter.baseStart == eventStart && fresh(iter)
      invariant 0 <= count == iter.count <= MAX_ITERATIONS
      invariant CursorBefore(rule, eventStart, count) == Some(iter.View())
      invariant Remaining(rule, eventStart, duration, rangeStart, rangeEnd, count, results, whole)
      decreases MAX_ITERATIONS - count
    {
      OneAdvance(rule, eventStart, duration, rangeStart, rangeEnd, count, results, whole, iter.View());
      var occStart := iter.Next();
      if count == MAX_ITERATIONS || Stops(rule, rangeEnd, count, occStart) {
        TakeNone(rule, eventStart, duration, rangeStart, rangeEnd, count, results, whole);
      } else {
        TakeOne(rule, eventStart, duration, rangeStart, rangeEnd, count, results, whole);
      }
      if occStart == 0 {
        break;
      }
      if rule.until.Some? && After(occStart, rule.until.value) {
        break;
      }
      if occStart > rangeEnd || occStart == rangeEnd {
        break;
      }
      count := count + 1;
      if rule.count > 0 && count > rule.count {
        break;
      }
      var occEnd := occStart + duration;
      if occStart < rangeEnd && occEnd > rangeStart {
        results := results + [Occurrence(occStart, occEnd)];
      } else {
        assert results + [] == results;
      }
    }
  }

  /** What was collected and what the loop still adds make up the whole result. */
  ghost predicate Remaining(r: Rule, base: int, duration: int, rangeStart: int, rangeEnd: int, k: nat,
                            done: seq<Occurrence>, whole: seq<Occurrence>)
    requires WellFormed(r)
  {
    var rest := Run(r, base, duration, rangeStart, rangeEnd, k);
    rest.Some? && done + rest.value == whole
  }

  lemma TakeOne(r: Rule, base: int, duration: int, rangeStart: int, rangeEnd: int, k: nat,
                done: seq<Occurrence>, whole: seq<Occurrence>)
    requires WellFormed(r) && k < MAX_ITERATIONS && Remaining(r, base, duration, rangeStart, rangeEnd, k, done, whole)
    requires Occ(r, base, k).Some? && !Stops(r, rangeEnd, k, Occ(r, base, k).value)
    ensures Remaining(r, base, duration, rangeStart, rangeEnd, k + 1,
                      done + Added(Occ(r, base, k).value, duration, rangeStart, rangeEnd), whole)
  {
    hide Occ, Added, Stops;
  }

  lemma TakeNone(r: Rule, base: int, duration: int, rangeStart: int, rangeEnd: int, k: nat,
                 done: seq<Occurrence>, whole: seq<Occurrence>)
    requires WellFormed(r) && Remaining(r, base, duration, rangeStart, rangeEnd, k, done, whole)
    requires k < MAX_ITERATIONS ==> Occ(r, base, k).Some? && Stops(r, rangeEnd, k, Occ(r, base, k).value)
    ensures done == whole
  {
    hide Occ, Added, Stops;
  }

  lemma AllRemains(r: Rule, base: int, duration: int, rangeStart: int, rangeEnd: int) returns (whole: seq<Occurrence>)
    requires WellFormed(r) && Returns(r, base, rangeEnd)
    ensures Some(whole) == Run(r, base, duration, rangeStart, rangeEnd, 0)
    ensures Remaining(r, base, duration, rangeStart, rangeEnd, 0, [], whole)
  {
    hide Run;
    RunWindowFree(r, base, duration, rangeStart, rangeEnd, 0);
    whole := Run(r, base, duration, rangeStart, rangeEnd, 0).value;
  }

  lemma NoAdvanceYet(r: Rule, base: int)
    requires WellFormed(r)
    ensures CursorBefore(r, base, 0) == Some(Cursor(base, 0, false))
  {
  }

  lemma OneAdvance(r: Rule, base: int, duration: int, rangeStart: int, rangeEnd: int, k: nat,
                   done: seq<Occurrence>, whole: seq<Occurrence>, c: Cursor)
    requires WellFormed(r) && CursorBefore(r, base, k) == Some(c) && k <= MAX_ITERATIONS
    requires Remaining(r, base, duration, rangeStart, rangeEnd, k, done, whole)
    ensures k < MAX_ITERATIONS ==>
              && Occ(r, base, k).Some? && Advance(r, base, c).Some?
              && Occ(r, base, k).value == Advance(r, base, c).value.1
              && CursorBefore(r, base, k + 1) == Some(Advance(r, base, c).value.0)
  {
    hide Advance, Stops, Added;
  }

  /** Whether Expand returns does not depend on the window's start or the duration. */
  lemma {:induction false} RunWindowFree(r: Rule, base: int, duration: int, rangeStart: int, rangeEnd: int, k: nat)
    requires WellFormed(r)
    ensures Run(r, base, duration, rangeStart, rangeEnd, k).Some? <==> Run(r, base, 0, 0, rangeEnd, k).Some?
    decreases MAX_ITERATIONS - k
  {
    hide Occ;
    if k < MAX_ITERATIONS { RunWindowFree(r, base, duration, rangeStart, rangeEnd, k + 1); }
  }
}
