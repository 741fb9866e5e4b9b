/**
  What the loop of Expand reaches, and when the answers for two windows agree on
  what lies in both.
*/
module WindowLaw {
  import opened Wrappers
  import opened Rules
  import opened Iteration
  import opened WeeklyLaw
  import opened SequenceLaws
  import opened Expansion
  import opened ExpandLaws
  import opened ReturnLaws

  /** The loop passes occurrences from .. m. */
  ghost predicate Passes(r: Rule, base: int, rangeEnd: int, from: nat, m: nat)
    requires WellFormed(r)
  {
    forall j: nat :: from <= j <= m ==> Occ(r, base, j).Some? && !Stops(r, rangeEnd, j, Occ(r, base, j).value)
  }

  /** Whatever the loop adds from an index on are occurrences it passes. */
  lemma {:induction false} RunPasses(r: Rule, base: int, duration: int, a: int, b: int, from: nat, o: Occurrence)
    returns (m: nat)
    requires WellFormed(r)
    requires Run(r, base, duration, a, b, from).Some? && o in Run(r, base, duration, a, b, from).value
    ensures from <= m < MAX_ITERATIONS && Occ(r, base, m) == Some(o.start) && Passes(r, base, b, from, m)
    decreases MAX_ITERATIONS - from
  {
    hide Occ, Stops;
    if o in Added(Occ(r, base, from).value, duration, a, b) {
      m := from;
    } else {
      m := RunPasses(r, base, duration, a, b, from + 1, o);
    }
  }

  /** So they come before any occurrence at which the loop stops. */
  lemma RunHolds(r: Rule, base: int, duration: int, a: int, b: int, from: nat, k: nat, o: Occurrence)
    requires WellFormed(r) && from <= k
    requires Run(r, base, duration, a, b, from).Some? && o in Run(r, base, duration, a, b, from).value
    ensures exists m: nat :: from <= m && Occ(r, base, m) == Some(o.start)
              && (Occ(r, base, k).Some? && Stops(r, b, k, Occ(r, base, k).value) ==> m < k)
  {
    hide Occ, Stops;
    var m := RunPasses(r, base, duration, a, b, from, o);
  }

  /** The loop that has not stopped before l adds what it adds from l on last. */
  lemma {:induction false} RunSplits(r: Rule, base: int, duration: int, a: int, b: int, from: nat, l: nat)
    returns (before: seq<Occurrence>)
    requires WellFormed(r) && from <= l < MAX_ITERATIONS && Run(r, base, duration, a, b, from).Some?
    requires forall m: nat :: from <= m < l && Occ(r, base, m).Some? ==> !Stops(r, b, m, Occ(r, base, m).value)
    ensures Run(r, base, duration, a, b, l).Some?
    ensures Run(r, base, duration, a, b, from).value == before + Run(r, base, duration, a, b, l).value
    decreases l - from
  {
    hide Occ, Stops;
    if from == l {
      before := [];
    } else {
      var rest := RunSplits(r, base, duration, a, b, from + 1, l);
      before := Added(Occ(r, base, from).value, duration, a, b) + rest;
    }
  }

  lemma FirstOfRun(r: Rule, base: int, duration: int, a: int, b: int, l: nat)
    requires WellFormed(r) && l < MAX_ITERATIONS && Run(r, base, duration, a, b, l).Some?
    requires Occ(r, base, l).Some? && !Stops(r, b, l, Occ(r, base, l).value)
    requires Overlaps(Occ(r, base, l).value, Occ(r, base, l).value + duration, a, b)
    ensures |Run(r, base, duration, a, b, l).value| > 0
    ensures Run(r, base, duration, a, b, l).value[0]
         == Occurrence(Occ(r, base, l).value, Occ(r, base, l).value + duration)
  {
    hide Occ, Stops;
  }

  /** An occurrence the loop passes is in the answer if it overlaps the window. */
  lemma PassedIsAdded(r: Rule, base: int, duration: int, a: int, b: int, m: nat)
    requires WellFormed(r) && Returns(r, base, b) && m < MAX_ITERATIONS && Passes(r, base, b, 0, m)
    requires Overlaps(Occ(r, base, m).value, Occ(r, base, m).value + duration, a, b)
    ensures Occurrence(Occ(r, base, m).value, Occ(r, base, m).value + duration) in Answer(r, base, duration, a, b)
  {
    hide Occ, Stops, Run, Overlaps;
    RunWindowFree(r, base, duration, a, b, 0);
    var before := RunSplits(r, base, duration, a, b, 0, m);
    FirstOfRun(r, base, duration, a, b, m);
    var rest := Run(r, base, duration, a, b, m).value;
    assert (before + rest)[|before|] == rest[0];
  }

  // ----- two windows -----

  /** The loop gets to occurrence k in some window: nothing up to it lies past UNTIL. */
  ghost predicate Reached(r: Rule, base: int, k: nat)
    requires WellFormed(r)
  {
    Counted(r, k) && forall j: nat :: j <= k ==> Occ(r, base, j).Some? && !PastUntil(r, Occ(r, base, j).value)
  }

  /** As far as the loop can get, no occurrence precedes an earlier one. */
  ghost predicate ReachedInOrder(r: Rule, base: int)
    requires WellFormed(r)
  {
    forall k: nat, l: nat :: k < l && Reached(r, base, l) && Occ(r, base, k).Some?
      ==> Occ(r, base, k).value <= Occ(r, base, l).value
  }

  lemma InOrderIsReachedInOrder(r: Rule, base: int)
    requires WellFormed(r) && InOrder(r, base)
    ensures ReachedInOrder(r, base)
  {
    hide Occ, PastUntil, Counted;
    forall k: nat, l: nat | k < l && Reached(r, base, l) && Occ(r, base, k).Some?
      ensures Occ(r, base, k).value <= Occ(r, base, l).value
    {
      assert Allowed(r, base, l);
    }
  }

  /** No earlier occurrence is the same instant. */
  ghost predicate FirstAt(r: Rule, base: int, l: nat)
    requires WellFormed(r)
  {
    Occ(r, base, l).Some? && forall m: nat :: m < l ==> Occ(r, base, m) != Occ(r, base, l)
  }

  /** The same, looking only at the first of several equal occurrences. */
  ghost predicate FirstsReachedInOrder(r: Rule, base: int)
    requires WellFormed(r)
  {
    forall k: nat, l: nat :: k < l && Reached(r, base, l) && FirstAt(r, base, l) && Occ(r, base, k).Some?
      ==> Occ(r, base, k).value <= Occ(r, base, l).value
  }

  /** And the same for all the rule allows, whether the loop can get there or not. */
  ghost predicate FirstsInOrder(r: Rule, base: int)
    requires WellFormed(r)
  {
    forall k: nat, l: nat :: k < l && Allowed(r, base, l) && FirstAt(r, base, l) && Occ(r, base, k).Some?
      ==> Occ(r, base, k).value <= Occ(r, base, l).value
  }

  lemma {:induction false} FirstIndex(r: Rule, base: int, m: nat, l: nat) returns (f: nat)
    requires WellFormed(r) && m <= l && Occ(r, base, l).Some?
    requires forall j: nat :: j < m ==> Occ(r, base, j) != Occ(r, base, l)
    ensures f <= l && FirstAt(r, base, f) && Occ(r, base, f) == Occ(r, base, l)
    decreases l - m
  {
    hide Occ;
    if Occ(r, base, m) == Occ(r, base, l) { f := m; } else { f := FirstIndex(r, base, m + 1, l); }
  }

  lemma ReachedBefore(r: Rule, base: int, f: nat, m: nat)
    requires WellFormed(r) && f <= m && Reached(r, base, m)
    ensures Reached(r, base, f)
  {
    hide Occ, PastUntil;
  }

  lemma ReachedIsAllowed(r: Rule, base: int, m: nat)
    requires WellFormed(r) && Reached(r, base, m)
    ensures Allowed(r, base, m) && m < MAX_ITERATIONS && Occ(r, base, m).Some?
  {
    hide Occ, PastUntil;
  }

  lemma EarlierPastUntil(r: Rule, s: int, t: int)
    requires s <= t && PastUntil(r, s)
    ensures PastUntil(r, t)
  {
  }

  /** A first occurrence that nothing before it overtakes is reached if it is allowed. */
  lemma AllowedIsReached(r: Rule, base: int, l: nat)
    requires WellFormed(r) && FirstsInOrder(r, base) && Allowed(r, base, l) && FirstAt(r, base, l)
    ensures Reached(r, base, l)
  {
    hide Walk, PastUntil;
    forall j: nat | j <= l ensures Occ(r, base, j).Some? && !PastUntil(r, Occ(r, base, j).value) {
      if Occ(r, base, j).None? { HangsOn(r, base, j, l); }
      if PastUntil(r, Occ(r, base, j).value) {
        EarlierPastUntil(r, Occ(r, base, j).value, Occ(r, base, l).value);
      }
    }
  }

  lemma ReachedPasses(r: Rule, base: int, b: int, m: nat)
    requires WellFormed(r) && FirstsReachedInOrder(r, base) && base > 0
    requires Reached(r, base, m) && FirstAt(r, base, m) && Occ(r, base, m).value < b
    ensures Passes(r, base, b, 0, m)
  {
    hide Occ, PastUntil;
    forall j: nat | j <= m ensures !Stops(r, b, j, Occ(r, base, j).value) { NotBeforeStart(r, base, j); }
  }

  lemma PassesReached(r: Rule, base: int, b: int, m: nat)
    requires WellFormed(r) && m < MAX_ITERATIONS && Passes(r, base, b, 0, m)
    ensures Reached(r, base, m)
  {
    hide Occ, PastUntil;
    assert !Stops(r, b, m, Occ(r, base, m).value);
  }

  /** Some reached occurrence starts at t. */
  ghost predicate ReachedAt(r: Rule, base: int, t: int)
    requires WellFormed(r)
  {
    exists m: nat :: Reached(r, base, m) && Occ(r, base, m) == Some(t)
  }

  /** Where first reached occurrences are in order, the answer holds those that overlap the window. */
  lemma AnswerIsReached(r: Rule, base: int, duration: int, a: int, b: int, o: Occurrence)
    requires WellFormed(r) && FirstsReachedInOrder(r, base) && base > 0 && Returns(r, base, b)
    ensures o in Answer(r, base, duration, a, b)
       <==> Overlaps(o.start, o.end, a, b) && o.end == o.start + duration && ReachedAt(r, base, o.start)
  {
    hide Occ, Run, Answer, Overlaps, Reached, Passes, FirstsReachedInOrder, FirstAt;
    if o in Answer(r, base, duration, a, b) {
      AnswerOverlaps(r, base, duration, a, b, o);
      var m := AnswerPasses(r, base, duration, a, b, o);
      PassesReached(r, base, b, m);
    }
    if Overlaps(o.start, o.end, a, b) && o.end == o.start + duration && ReachedAt(r, base, o.start) {
      var m: nat :| Reached(r, base, m) && Occ(r, base, m) == Some(o.start);
      var f := FirstIndex(r, base, 0, m);
      ReachedBefore(r, base, f, m);
      ReachedIsAllowed(r, base, f);
      OverlapsBefore(o.start, o.end, a, b);
      ReachedPasses(r, base, b, f);
      PassedIsAdded(r, base, duration, a, b, f);
    }
  }

  lemma OverlapsBefore(start: int, end: int, a: int, b: int)
    requires Overlaps(start, end, a, b)
    ensures start < b
  {
  }

  lemma AnswerPasses(r: Rule, base: int, duration: int, a: int, b: int, o: Occurrence) returns (m: nat)
    requires WellFormed(r) && Returns(r, base, b) && o in Answer(r, base, duration, a, b)
    ensures m < MAX_ITERATIONS && Occ(r, base, m) == Some(o.start) && Passes(r, base, b, 0, m)
  {
    hide Occ, Run, Passes;
    RunWindowFree(r, base, duration, a, b, 0);
    m := RunPasses(r, base, duration, a, b, 0, o);
  }

  /** Where first occurrences are in order, the answer holds those the rule allows that overlap the window. */
  lemma AnswerIsAllowed(r: Rule, base: int, duration: int, a: int, b: int, o: Occurrence)
    requires WellFormed(r) && FirstsInOrder(r, base) && base > 0 && Returns(r, base, b)
    ensures o in Answer(r, base, duration, a, b)
       <==> InWindow(r, base, duration, a, b, o.start) && o.end == o.start + duration
  {
    hide Occ, Answer, Overlaps, Reached, FirstAt, PastUntil, Returns;
    FirstsReached(r, base);
    AnswerIsReached(r, base, duration, a, b, o);
    if ReachedAt(r, base, o.start) {
      var m: nat :| Reached(r, base, m) && Occ(r, base, m) == Some(o.start);
      ReachedIsAllowed(r, base, m);
    }
    if InWindow(r, base, duration, a, b, o.start) {
      var k: nat :| Kept(r, base, duration, a, b, k) && Occ(r, base, k).value == o.start;
      var f := FirstIndex(r, base, 0, k);
      AllowedIsReached(r, base, f);
    }
  }

  lemma FirstsReached(r: Rule, base: int)
    requires WellFormed(r) && FirstsInOrder(r, base)
    ensures FirstsReachedInOrder(r, base)
  {
    hide Occ, PastUntil, FirstAt;
    forall k: nat, l: nat | k < l && Reached(r, base, l) && FirstAt(r, base, l) && Occ(r, base, k).Some?
      ensures Occ(r, base, k).value <= Occ(r, base, l).value
    {
      ReachedIsAllowed(r, base, l);
    }
  }

  lemma InOrderFirsts(r: Rule, base: int)
    requires WellFormed(r) && InOrder(r, base)
    ensures FirstsInOrder(r, base)
  {
    hide Occ, FirstAt, Allowed;
  }

  /** Cutting a window in two loses nothing and invents nothing. */
  lemma WindowSplits(r: Rule, base: int, duration: int, a: int, b: int, c: int, o: Occurrence)
    requires WellFormed(r) && FirstsReachedInOrder(r, base) && base > 0 && duration > 0 && a <= b <= c
    requires Returns(r, base, c)
    ensures Returns(r, base, b)
    ensures o in Answer(r, base, duration, a, c)
       <==> o in Answer(r, base, duration, a, b) || o in Answer(r, base, duration, b, c)
  {
    hide Occ, Run, Answer, ReachedAt, FirstsReachedInOrder;
    ShorterReturns(r, base, b, c, 0);
    AnswerIsReached(r, base, duration, a, c, o);
    AnswerIsReached(r, base, duration, a, b, o);
    AnswerIsReached(r, base, duration, b, c, o);
  }

  /** The entries of an answer that overlap a window, in order. */
  function Within(os: seq<Occurrence>, rangeStart: int, rangeEnd: int): seq<Occurrence> {
    if os == [] then []
    else
      (if Overlaps(os[0].start, os[0].end, rangeStart, rangeEnd) then [os[0]] else [])
      + Within(os[1..], rangeStart, rangeEnd)
  }

  lemma WithinSplit(o: Occurrence, rest: seq<Occurrence>, rangeStart: int, rangeEnd: int)
    ensures Within([o] + rest, rangeStart, rangeEnd)
         == (if Overlaps(o.start, o.end, rangeStart, rangeEnd) then [o] else []) + Within(rest, rangeStart, rangeEnd)
  {
    assert ([o] + rest)[1..] == rest;
  }

  lemma {:induction false} NoneWithin(os: seq<Occurrence>, rangeStart: int, rangeEnd: int)
    requires forall o :: o in os ==> o.start >= rangeEnd
    ensures Within(os, rangeStart, rangeEnd) == []
  {
    if os != [] {
      assert os[0] in os;
      NoneWithin(os[1..], rangeStart, rangeEnd);
    }
  }

  /** Past the end of the smaller window the larger one adds nothing that overlaps it. */
  lemma RestIsLater(r: Rule, base: int, duration: int, a: int, d: int, k: nat, o: Occurrence)
    requires WellFormed(r) && ReachedInOrder(r, base) && k < MAX_ITERATIONS && Occ(r, base, k).Some?
    requires forall j: nat :: j < k ==> Occ(r, base, j).Some? && !Stops(r, d, j, Occ(r, base, j).value)
    requires Run(r, base, duration, a, d, k).Some? && o in Run(r, base, duration, a, d, k).value
    ensures Occ(r, base, k).value <= o.start
  {
    hide Occ, Stops, Run, Reached;
    var m := RunPasses(r, base, duration, a, d, k, o);
    PassesReached(r, base, d, m);
  }

  lemma {:induction false} RunWithin(r: Rule, base: int, duration: int, a: int, d: int, b: int, c: int, k: nat)
    requires WellFormed(r) && ReachedInOrder(r, base) && a <= b && c <= d
    requires forall j: nat :: j < k ==> Occ(r, base, j).Some? && !Stops(r, d, j, Occ(r, base, j).value)
    requires Run(r, base, duration, a, d, k).Some?
    ensures Run(r, base, duration, b, c, k) == Some(Within(Run(r, base, duration, a, d, k).value, b, c))
    decreases MAX_ITERATIONS - k
  {
    hide Occ, PastUntil, ReachedInOrder, Within;
    var os := Run(r, base, duration, a, d, k).value;
    if k >= MAX_ITERATIONS || Stops(r, d, k, Occ(r, base, k).value) {
      NoneWithin([], b, c);
    } else if Stops(r, c, k, Occ(r, base, k).value) {
      forall o | o in os ensures o.start >= c { RestIsLater(r, base, duration, a, d, k, o); }
      NoneWithin(os, b, c);
    } else {
      RunWithin(r, base, duration, a, d, b, c, k + 1);
      var t, rest := Occ(r, base, k).value, Run(r, base, duration, a, d, k + 1).value;
      WithinSplit(Occurrence(t, t + duration), rest, b, c);
      assert [] + rest == rest && [] + Within(rest, b, c) == Within(rest, b, c);
    }
  }

  /** A smaller window gives the subsequence of the larger answer that overlaps it. */
  lemma SmallerWindow(r: Rule, base: int, duration: int, a: int, d: int, b: int, c: int)
    requires WellFormed(r) && ReachedInOrder(r, base) && a <= b && c <= d && Returns(r, base, d)
    ensures Returns(r, base, c)
    ensures Answer(r, base, duration, b, c) == Within(Answer(r, base, duration, a, d), b, c)
  {
    hide Occ, Run, ReachedInOrder;
    ShorterReturns(r, base, c, d, 0);
    RunWindowFree(r, base, duration, a, d, 0);
    RunWithin(r, base, duration, a, d, b, c, 0);
  }

  /** Every window can be cut in two so. */
  ghost predicate WindowsAgree(r: Rule, base: int)
    requires WellFormed(r)
  {
    forall duration: int, a: int, b: int, c: int, o: Occurrence ::
      duration > 0 && a <= b <= c && Returns(r, base, b) && Returns(r, base, c) ==>
        (o in Answer(r, base, duration, a, c)
         <==> o in Answer(r, base, duration, a, b) || o in Answer(r, base, duration, b, c))
  }

  /** An instant none of the first occurrences is later than. */
  ghost function LatestUpTo(r: Rule, base: int, l: nat): int
    requires WellFormed(r)
  {
    var last := if Occ(r, base, l).Some? then Occ(r, base, l).value else base;
    if l == 0 then last
    else
      var before := LatestUpTo(r, base, l - 1);
      if before < last then last else before
  }

  lemma {:induction false} LatestBounds(r: Rule, base: int, j: nat, l: nat)
    requires WellFormed(r) && j <= l && Occ(r, base, j).Some?
    ensures Occ(r, base, j).value <= LatestUpTo(r, base, l)
    decreases l
  {
    hide Occ;
    if j < l { LatestBounds(r, base, j, l - 1); }
  }

  /** Every smaller window gives the subsequence of the larger answer that overlaps it. */
  ghost predicate WindowsNest(r: Rule, base: int)
    requires WellFormed(r)
  {
    forall duration: int, a: int, d: int, b: int, c: int ::
      a <= b && c <= d && Returns(r, base, c) && Returns(r, base, d) ==>
        Answer(r, base, duration, b, c) == Within(Answer(r, base, duration, a, d), b, c)
  }

  lemma {:induction false} InWithin(os: seq<Occurrence>, o: Occurrence, rangeStart: int, rangeEnd: int)
    requires o in os && Overlaps(o.start, o.end, rangeStart, rangeEnd)
    ensures |Within(os, rangeStart, rangeEnd)| > 0
  {
    if o != os[0] { InWithin(os[1..], o, rangeStart, rangeEnd); }
  }

  /** The second in which l starts: the wide window lists more of it than the narrow one, which ends at k. */
  lemma {:induction false} NarrowListsFewer(r: Rule, base: int, t: int, d: int, i: nat, k: nat, l: nat)
    requires WellFormed(r) && i <= k < l < MAX_ITERATIONS && t < d && Occ(r, base, l) == Some(t)
    requires Occ(r, base, k).Some? && Stops(r, t + 1, k, Occ(r, base, k).value) && Passes(r, base, d, 0, l)
    requires Run(r, base, 1, t, d, i).Some? && Run(r, base, 1, t, t + 1, i).Some?
    ensures |Within(Run(r, base, 1, t, d, i).value, t, t + 1)| > |Run(r, base, 1, t, t + 1, i).value|
    decreases k - i
  {
    hide Occ, PastUntil, Within;
    var wide := Run(r, base, 1, t, d, i).value;
    if Stops(r, t + 1, i, Occ(r, base, i).value) {
      var before := RunSplits(r, base, 1, t, d, i, l);
      FirstOfRun(r, base, 1, t, d, l);
      assert wide[|before|] == Occurrence(t, t + 1);
      InWithin(wide, Occurrence(t, t + 1), t, t + 1);
    } else {
      NarrowListsFewer(r, base, t, d, i + 1, k, l);
      var s, rest := Occ(r, base, i).value, Run(r, base, 1, t, d, i + 1).value;
      WithinSplit(Occurrence(s, s + 1), rest, t, t + 1);
      assert [] + rest == rest;
    }
  }

  lemma GoingBackDoesNotNest(r: Rule, base: int, k: nat, l: nat)
    requires ByDayRule(r) && base > 0 && k < l && Reached(r, base, l)
    requires Occ(r, base, k).Some? && Occ(r, base, k).value > Occ(r, base, l).value
    ensures !WindowsNest(r, base)
  {
    hide Occ, Run, PastUntil, Within;
    var t := Occ(r, base, l).value;
    var d := LatestUpTo(r, base, l) + 1;
    OthersAlwaysReturn(r, base, t + 1);
    OthersAlwaysReturn(r, base, d);
    forall j: nat | j <= l ensures !Stops(r, d, j, Occ(r, base, j).value) {
      NotBeforeStart(r, base, j);
      LatestBounds(r, base, j, l);
    }
    RunWindowFree(r, base, 1, t, d, 0);
    RunWindowFree(r, base, 1, t, t + 1, 0);
    NarrowListsFewer(r, base, t, d, 0, k, l);
    assert Answer(r, base, 1, t, t + 1) != Within(Answer(r, base, 1, t, d), t, t + 1);
  }

  /** All windows nest exactly when the reached occurrences are in order. */
  lemma WindowsNestIffReached(r: Rule, base: int)
    requires WellFormed(r) && base > 0
    ensures WindowsNest(r, base) <==> ReachedInOrder(r, base)
  {
    hide Occ, Answer, Returns, Distinct, PastUntil, Within;
    if ReachedInOrder(r, base) {
      forall duration: int, a: int, d: int, b: int, c: int
        | a <= b && c <= d && Returns(r, base, c) && Returns(r, base, d)
        ensures Answer(r, base, duration, b, c) == Within(Answer(r, base, duration, a, d), b, c)
      {
        SmallerWindow(r, base, duration, a, d, b, c);
      }
    } else {
      if !ByDayRule(r) {
        SortedIsInOrder(r, base) by { NoDaysInOrder(r.byDay); }
        InOrderIsReachedInOrder(r, base);
      }
      var k: nat, l: nat :| k < l && Reached(r, base, l) && Occ(r, base, k).Some?
        && Occ(r, base, k).value > Occ(r, base, l).value;
      GoingBackDoesNotNest(r, base, k, l);
    }
  }

  /** Overtaken by a later one, a first occurrence is missing from the second-long window it starts in. */
  lemma OvertakenIsMissing(r: Rule, base: int, k: nat, l: nat, duration: int, a: int, o: Occurrence)
    requires WellFormed(r) && k < l && FirstAt(r, base, l) && Occ(r, base, k).Some?
    requires Occ(r, base, k).value > Occ(r, base, l).value && o.start == Occ(r, base, l).value
    requires Returns(r, base, o.start + 1)
    ensures o !in Answer(r, base, duration, a, o.start + 1)
  {
    hide Occ, Run, Returns, Answer;
    var b := o.start + 1;
    assert Stops(r, b, k, Occ(r, base, k).value);
    if o in Answer(r, base, duration, a, b) { var m := AnswerPasses(r, base, duration, a, b, o); }
  }

  /** If the loop can get there, a wide window has it all the same. */
  lemma GoingBackDisagrees(r: Rule, base: int, k: nat, l: nat)
    requires ByDayRule(r) && base > 0 && k < l && Reached(r, base, l) && FirstAt(r, base, l)
    requires Occ(r, base, k).Some? && Occ(r, base, k).value > Occ(r, base, l).value
    ensures !WindowsAgree(r, base)
  {
    hide Occ, Run, Returns, PastUntil, Answer, FirstAt;
    var t := Occ(r, base, l).value;
    var o, c := Occurrence(t, t + 1), LatestUpTo(r, base, l) + 1;
    OthersAlwaysReturn(r, base, t + 1);
    OthersAlwaysReturn(r, base, c);
    forall j: nat | j <= l ensures !Stops(r, c, j, Occ(r, base, j).value) {
      NotBeforeStart(r, base, j);
      LatestBounds(r, base, j, l);
    }
    PassedIsAdded(r, base, 1, t, c, l);
    OvertakenIsMissing(r, base, k, l, 1, t, o);
    if o in Answer(r, base, 1, t + 1, c) { AnswerOverlaps(r, base, 1, t + 1, c, o); }
  }

  /** All windows agree exactly when the first occurrences the loop can reach are in order. */
  lemma WindowsAgreeIffFirsts(r: Rule, base: int)
    requires WellFormed(r) && base > 0
    ensures WindowsAgree(r, base) <==> FirstsReachedInOrder(r, base)
  {
    hide Occ, Answer, Returns, Distinct, PastUntil, FirstAt;
    if FirstsReachedInOrder(r, base) {
      forall duration: int, a: int, b: int, c: int, o: Occurrence
        | duration > 0 && a <= b <= c && Returns(r, base, b) && Returns(r, base, c)
        ensures o in Answer(r, base, duration, a, c)
           <==> o in Answer(r, base, duration, a, b) || o in Answer(r, base, duration, b, c)
      {
        WindowSplits(r, base, duration, a, b, c, o);
      }
    } else {
      if !ByDayRule(r) {
        SortedIsInOrder(r, base) by { NoDaysInOrder(r.byDay); }
        InOrderFirsts(r, base);
        FirstsReached(r, base);
      }
      var k: nat, l: nat :| k < l && Reached(r, base, l) && FirstAt(r, base, l) && Occ(r, base, k).Some?
        && Occ(r, base, k).value > Occ(r, base, l).value;
      GoingBackDisagrees(r, base, k, l);
    }
  }
}
