/** What Expand means: the law its early exits must not break, and what follows from it. */
module ExpandLaws {
  import opened Wrappers
  import opened Calendar
  import opened Rules
  import opened Iteration
  import opened WeeklyLaw
  import opened SequenceLaws
  import opened Expansion

  /** Index k is below COUNT and the iterator's cap, both counted from the start. */
  predicate Counted(r: Rule, k: nat) {
    k < MAX_ITERATIONS && (r.count > 0 ==> k < r.count)
  }

  /** Occurrence k is one the rule allows, whatever the window. */
  ghost predicate Allowed(r: Rule, base: int, k: nat)
    requires WellFormed(r)
  {
    Counted(r, k) && Occ(r, base, k).Some? && !PastUntil(r, Occ(r, base, k).value)
  }

  /** Occurrence k belongs to the answer: conditions each read off k alone. */
  ghost predicate Kept(r: Rule, base: int, duration: int, rangeStart: int, rangeEnd: int, k: nat)
    requires WellFormed(r)
  {
    Allowed(r, base, k) && Overlaps(Occ(r, base, k).value, Occ(r, base, k).value + duration, rangeStart, rangeEnd)
  }

  /** The same in plain numbers: below 10000 and COUNT, and not later than UNTIL, whose own second still counts. */
  lemma AllowedIs(r: Rule, base: int, k: nat)
    requires WellFormed(r)
    ensures Allowed(r, base, k)
       <==> && k < 10000 && (r.count != 0 ==> k < r.count)
            && exists t :: Occ(r, base, k) == Some(t) && (r.until.Some? ==> t <= r.until.value.sec)
  {
    hide Occ;
    if Occ(r, base, k).Some? { assert Occ(r, base, k) == Some(Occ(r, base, k).value); }
  }

  /** And starting before the window ends, and ending after it starts. */
  lemma KeptIs(r: Rule, base: int, duration: int, rangeStart: int, rangeEnd: int, k: nat)
    requires WellFormed(r)
    ensures Kept(r, base, duration, rangeStart, rangeEnd, k)
       <==> && k < 10000 && (r.count != 0 ==> k < r.count)
            && exists t :: Occ(r, base, k) == Some(t) && (r.until.Some? ==> t <= r.until.value.sec)
                           && t < rangeEnd && t + duration > rangeStart
  {
    hide Occ;
    if Occ(r, base, k).Some? { assert Occ(r, base, k) == Some(Occ(r, base, k).value); }
  }

  /** No occurrence precedes an allowed one in the walk but follows it in time. */
  ghost predicate InOrder(r: Rule, base: int)
    requires WellFormed(r)
  {
    forall k: nat, l: nat :: k < l && Allowed(r, base, l) && Occ(r, base, k).Some?
      ==> Occ(r, base, k).value <= Occ(r, base, l).value
  }

  /** BYDAY from Monday to Sunday is enough, and so is any other frequency. */
  lemma SortedIsInOrder(r: Rule, base: int)
    requires Sorted(r)
    ensures InOrder(r, base)
  {
    hide Occ, MondaySorted, PastUntil;
    forall k: nat, l: nat | k < l && Allowed(r, base, l) && Occ(r, base, k).Some?
      ensures Occ(r, base, k).value <= Occ(r, base, l).value
    {
      NeverGoesBack(r, base, k, l);
    }
  }

  /** The reference definition: all kept occurrences from k on, in order, with no early exit. */
  ghost function Selected(r: Rule, base: int, duration: int, rangeStart: int, rangeEnd: int, k: nat): seq<Occurrence>
    requires WellFormed(r)
    decreases MAX_ITERATIONS - k
  {
    if k >= MAX_ITERATIONS then []
    else
      (if Kept(r, base, duration, rangeStart, rangeEnd, k)
       then [Occurrence(Occ(r, base, k).value, Occ(r, base, k).value + duration)] else [])
      + Selected(r, base, duration, rangeStart, rangeEnd, k + 1)
  }

  lemma {:induction false} NothingLeft(r: Rule, base: int, duration: int, rangeStart: int, rangeEnd: int, k: nat)
    requires WellFormed(r)
    requires forall j: nat :: j >= k ==> !Kept(r, base, duration, rangeStart, rangeEnd, j)
    ensures Selected(r, base, duration, rangeStart, rangeEnd, k) == []
    decreases MAX_ITERATIONS - k
  {
    hide Kept;
    if k < MAX_ITERATIONS { NothingLeft(r, base, duration, rangeStart, rangeEnd, k + 1); }
  }

  /** Once the loop may stop at k, no later occurrence of a rule in order belongs to the answer. */
  lemma StopLosesNothing(r: Rule, base: int, duration: int, rangeStart: int, rangeEnd: int, k: nat, j: nat)
    requires WellFormed(r) && InOrder(r, base) && base > 0 && k <= j && Occ(r, base, k).Some?
    requires Stops(r, rangeEnd, k, Occ(r, base, k).value)
    ensures !Kept(r, base, duration, rangeStart, rangeEnd, j)
  {
    hide Occ;
    NotBeforeStart(r, base, k);
  }

  lemma {:induction false} RunSelects(r: Rule, base: int, duration: int, rangeStart: int, rangeEnd: int, k: nat)
    requires WellFormed(r) && InOrder(r, base) && base > 0 && Run(r, base, duration, rangeStart, rangeEnd, k).Some?
    ensures Run(r, base, duration, rangeStart, rangeEnd, k).value
         == Selected(r, base, duration, rangeStart, rangeEnd, k)
    decreases MAX_ITERATIONS - k
  {
    hide Occ, InOrder, PastUntil;
    if k < MAX_ITERATIONS {
      var t := Occ(r, base, k).value;
      if Stops(r, rangeEnd, k, t) {
        forall j: nat | j >= k ensures !Kept(r, base, duration, rangeStart, rangeEnd, j) {
          StopLosesNothing(r, base, duration, rangeStart, rangeEnd, k, j);
        }
        NothingLeft(r, base, duration, rangeStart, rangeEnd, k);
      } else {
        RunSelects(r, base, duration, rangeStart, rangeEnd, k + 1);
      }
    }
  }

  /**
    Expand is exact for rules in order: whenever it returns, its answer is the ordered
    filter of the rule's occurrences by index below 10000 and COUNT (both counted
    from the start, whatever the window), UNTIL, and overlap with the window.
  */
  lemma ExpandIsExact(r: Rule, base: int, duration: int, rangeStart: int, rangeEnd: int)
    requires WellFormed(r) && InOrder(r, base) && base > 0 && Returns(r, base, rangeEnd)
    ensures Answer(r, base, duration, rangeStart, rangeEnd) == Selected(r, base, duration, rangeStart, rangeEnd, 0)
  {
    hide InOrder;
    RunWindowFree(r, base, duration, rangeStart, rangeEnd, 0);
    RunSelects(r, base, duration, rangeStart, rangeEnd, 0);
  }

  // ----- when it is not exact -----

  /** Expand agrees with the filter on every window. */
  ghost predicate ExactEverywhere(r: Rule, base: int)
    requires WellFormed(r)
  {
    forall duration, rangeStart, rangeEnd :: Returns(r, base, rangeEnd) ==>
      Answer(r, base, duration, rangeStart, rangeEnd) == Selected(r, base, duration, rangeStart, rangeEnd, 0)
  }

  lemma {:induction false} StoppedLength(r: Rule, base: int, duration: int, rangeStart: int, rangeEnd: int,
                                         i: nat, k: nat)
    requires WellFormed(r) && i <= k < MAX_ITERATIONS
    requires Occ(r, base, k).Some? && Stops(r, rangeEnd, k, Occ(r, base, k).value)
    requires Run(r, base, duration, rangeStart, rangeEnd, i).Some?
    ensures |Run(r, base, duration, rangeStart, rangeEnd, i).value|
            + |Selected(r, base, duration, rangeStart, rangeEnd, k)|
         <= |Selected(r, base, duration, rangeStart, rangeEnd, i)|
    decreases MAX_ITERATIONS - i
  {
    hide Occ, PastUntil;
    var t := Occ(r, base, i).value;
    if Stops(r, rangeEnd, i, t) {
      SelectedShrinks(r, base, duration, rangeStart, rangeEnd, i, k);
    } else if i < k {
      StoppedLength(r, base, duration, rangeStart, rangeEnd, i + 1, k);
    }
  }

  lemma {:induction false} SelectedShrinks(r: Rule, base: int, duration: int, rangeStart: int, rangeEnd: int,
                                           i: nat, k: nat)
    requires WellFormed(r) && i <= k
    ensures |Selected(r, base, duration, rangeStart, rangeEnd, k)|
         <= |Selected(r, base, duration, rangeStart, rangeEnd, i)|
    decreases k - i
  {
    hide Kept;
    if i < k { SelectedShrinks(r, base, duration, rangeStart, rangeEnd, i + 1, k); }
  }

  lemma KeptIsSelected(r: Rule, base: int, duration: int, rangeStart: int, rangeEnd: int, k: nat)
    requires WellFormed(r) && Kept(r, base, duration, rangeStart, rangeEnd, k)
    ensures |Selected(r, base, duration, rangeStart, rangeEnd, k)| >= 1
  {
    hide Occ;
  }

  /** Two occurrences in the wrong order: a window between them loses the second. */
  lemma GoingBackLoses(r: Rule, base: int, k: nat, l: nat)
    requires WellFormed(r) && k < l && Allowed(r, base, l) && Occ(r, base, k).Some?
    requires Occ(r, base, l).value < Occ(r, base, k).value
    ensures !ExactEverywhere(r, base)
  {
    hide Occ;
    var t := Occ(r, base, l).value;
    StopIsReached(r, base, t + 1, 0, k);
    RunWindowFree(r, base, 1, t, t + 1, 0);
    StoppedLength(r, base, 1, t, t + 1, 0, k);
    SelectedShrinks(r, base, 1, t, t + 1, k, l);
    KeptIsSelected(r, base, 1, t, t + 1, l);
    assert Returns(r, base, t + 1);
  }

  lemma {:induction false} StopIsReached(r: Rule, base: int, rangeEnd: int, i: nat, k: nat)
    requires WellFormed(r) && i <= k < MAX_ITERATIONS
    requires Occ(r, base, k).Some? && Stops(r, rangeEnd, k, Occ(r, base, k).value)
    ensures Run(r, base, 0, 0, rangeEnd, i).Some?
    decreases k - i
  {
    hide Walk;
    if i < k {
      if Occ(r, base, i).None? { HangsOn(r, base, i, k); }
      StopIsReached(r, base, rangeEnd, i + 1, k);
    }
  }

  /** For every rule, Expand is exact on every window exactly when the rule is in order. */
  lemma ExactIffInOrder(r: Rule, base: int)
    requires WellFormed(r) && base > 0
    ensures ExactEverywhere(r, base) <==> InOrder(r, base)
  {
    hide Occ, Answer, Selected, Returns;
    if InOrder(r, base) {
      forall duration, rangeStart, rangeEnd | Returns(r, base, rangeEnd)
        ensures Answer(r, base, duration, rangeStart, rangeEnd)
             == Selected(r, base, duration, rangeStart, rangeEnd, 0)
      {
        ExpandIsExact(r, base, duration, rangeStart, rangeEnd);
      }
    } else {
      var k: nat, l: nat :| k < l && Allowed(r, base, l) && Occ(r, base, k).Some?
        && Occ(r, base, k).value > Occ(r, base, l).value;
      GoingBackLoses(r, base, k, l);
    }
  }

  /** Every entry of an answer overlaps the window and starts at the rule's time of day. */
  lemma AnswerOverlaps(r: Rule, base: int, duration: int, a: int, b: int, o: Occurrence)
    requires WellFormed(r) && Returns(r, base, b) && o in Answer(r, base, duration, a, b)
    ensures Overlaps(o.start, o.end, a, b) && o.end == o.start + duration && TimeOfDay(o.start) == TimeOfDay(base)
  {
    RunWindowFree(r, base, duration, a, b, 0);
    RunOverlaps(r, base, duration, a, b, 0, o);
  }

  lemma {:induction false} RunOverlaps(r: Rule, base: int, duration: int, a: int, b: int, k: nat, o: Occurrence)
    requires WellFormed(r) && Run(r, base, duration, a, b, k).Some? && o in Run(r, base, duration, a, b, k).value
    ensures Overlaps(o.start, o.end, a, b) && o.end == o.start + duration && TimeOfDay(o.start) == TimeOfDay(base)
    decreases MAX_ITERATIONS - k
  {
    hide Occ, PastUntil, TimeOfDay;
    KeepsTimeOfDay(r, base, k);
    if o in Run(r, base, duration, a, b, k + 1).value {
      RunOverlaps(r, base, duration, a, b, k + 1, o);
    }
  }

  /** Some kept occurrence starts at t. */
  ghost predicate InWindow(r: Rule, base: int, duration: int, rangeStart: int, rangeEnd: int, t: int)
    requires WellFormed(r)
  {
    exists k: nat :: Kept(r, base, duration, rangeStart, rangeEnd, k) && Occ(r, base, k).value == t
  }

  lemma {:induction false} SelectedHolds(r: Rule, base: int, duration: int, rangeStart: int, rangeEnd: int,
                                         from: nat, o: Occurrence)
    requires WellFormed(r)
    ensures o in Selected(r, base, duration, rangeStart, rangeEnd, from)
       <==> exists k: nat :: k >= from && Kept(r, base, duration, rangeStart, rangeEnd, k)
              && o == Occurrence(Occ(r, base, k).value, Occ(r, base, k).value + duration)
    decreases MAX_ITERATIONS - from
  {
    hide Occ, Overlaps, PastUntil;
    if from < MAX_ITERATIONS {
      SelectedHolds(r, base, duration, rangeStart, rangeEnd, from + 1, o);
      var rest := Selected(r, base, duration, rangeStart, rangeEnd, from + 1);
      if Kept(r, base, duration, rangeStart, rangeEnd, from) {
        var x := Occurrence(Occ(r, base, from).value, Occ(r, base, from).value + duration);
        assert o in [x] + rest <==> o == x || o in rest;
      }
    }
  }

  /** Membership in the answer, for every rule in order. */
  lemma ExpandHolds(r: Rule, base: int, duration: int, rangeStart: int, rangeEnd: int, o: Occurrence)
    requires WellFormed(r) && InOrder(r, base) && base > 0 && Returns(r, base, rangeEnd)
    ensures o in Answer(r, base, duration, rangeStart, rangeEnd)
       <==> InWindow(r, base, duration, rangeStart, rangeEnd, o.start) && o.end == o.start + duration
  {
    hide Occ, Kept, Answer, Selected, InOrder, Returns;
    ExpandIsExact(r, base, duration, rangeStart, rangeEnd);
    SelectedHolds(r, base, duration, rangeStart, rangeEnd, 0, o);
  }

  ghost predicate Ascending(s: seq<Occurrence>) {
    forall i, j :: 0 <= i < j < |s| ==> s[i].start < s[j].start
  }

  ghost predicate NeverDescending(s: seq<Occurrence>) {
    forall i, j :: 0 <= i < j < |s| ==> s[i].start <= s[j].start
  }

  lemma OrderedCons(x: Occurrence, s: seq<Occurrence>)
    requires NeverDescending(s) && forall j :: 0 <= j < |s| ==> x.start <= s[j].start
    ensures NeverDescending([x] + s)
    ensures Ascending(s) && (forall j :: 0 <= j < |s| ==> x.start < s[j].start) ==> Ascending([x] + s)
  {
  }

  /** The answer is in order, and without repeats in BYDAY no occurrence is listed twice. */
  lemma {:induction false} SelectedInOrder(r: Rule, base: int, duration: int, rangeStart: int, rangeEnd: int, from: nat)
    requires WellFormed(r) && InOrder(r, base)
    ensures NeverDescending(Selected(r, base, duration, rangeStart, rangeEnd, from))
    ensures NoRepeats(r) ==> Ascending(Selected(r, base, duration, rangeStart, rangeEnd, from))
    decreases MAX_ITERATIONS - from
  {
    hide Occ, Overlaps, PastUntil, InOrder, NoRepeats, Ascending, NeverDescending;
    if from >= MAX_ITERATIONS {
      EmptyInOrder();
    } else {
      SelectedInOrder(r, base, duration, rangeStart, rangeEnd, from + 1);
      var rest := Selected(r, base, duration, rangeStart, rangeEnd, from + 1);
      if Kept(r, base, duration, rangeStart, rangeEnd, from) {
        forall j | 0 <= j < |rest|
          ensures Occ(r, base, from).value <= rest[j].start
          ensures NoRepeats(r) ==> Occ(r, base, from).value < rest[j].start
        {
          LaterEntry(r, base, duration, rangeStart, rangeEnd, from, rest[j]);
        }
        OrderedCons(Occurrence(Occ(r, base, from).value, Occ(r, base, from).value + duration), rest);
      } else {
        assert [] + rest == rest;
      }
    }
  }

  lemma LaterEntry(r: Rule, base: int, duration: int, rangeStart: int, rangeEnd: int, from: nat, o: Occurrence)
    requires WellFormed(r) && InOrder(r, base) && Kept(r, base, duration, rangeStart, rangeEnd, from)
    requires o in Selected(r, base, duration, rangeStart, rangeEnd, from + 1)
    ensures Occ(r, base, from).value <= o.start
    ensures NoRepeats(r) ==> Occ(r, base, from).value < o.start
  {
    hide Occ, Overlaps, PastUntil, NoRepeats, Selected;
    SelectedHolds(r, base, duration, rangeStart, rangeEnd, from + 1, o);
    var k: nat :| k >= from + 1 && Kept(r, base, duration, rangeStart, rangeEnd, k)
                  && o == Occurrence(Occ(r, base, k).value, Occ(r, base, k).value + duration);
    OnePerDate(r, base);
  }

  lemma EmptyInOrder()
    ensures NeverDescending([]) && Ascending([])
  {
  }

  // ----- when Expand returns at all -----

  /** An occurrence before k at which the loop stops. */
  ghost predicate StoppedBefore(r: Rule, base: int, rangeEnd: int, from: nat, k: nat)
    requires WellFormed(r)
  {
    exists j: nat :: from <= j < k && Occ(r, base, j).Some? && Stops(r, rangeEnd, j, Occ(r, base, j).value)
  }

  lemma {:induction false} ReturnsFromIff(r: Rule, base: int, rangeEnd: int, from: nat)
    requires WellFormed(r)
    ensures Run(r, base, 0, 0, rangeEnd, from).Some?
       <==> forall k: nat :: from <= k < MAX_ITERATIONS ==>
              Occ(r, base, k).Some? || StoppedBefore(r, base, rangeEnd, from, k)
    decreases MAX_ITERATIONS - from
  {
    hide Occ, PastUntil, Stops;
    if from < MAX_ITERATIONS {
      ReturnsFromIff(r, base, rangeEnd, from + 1);
      if Occ(r, base, from).Some? && !Stops(r, rangeEnd, from, Occ(r, base, from).value) {
        forall k: nat | from < k
          ensures StoppedBefore(r, base, rangeEnd, from, k) <==> StoppedBefore(r, base, rangeEnd, from + 1, k)
        {
        }
      }
    }
  }

  /** Expand returns exactly when no advance before its first stop runs for ever. */
  lemma ReturnsIff(r: Rule, base: int, rangeEnd: int)
    requires WellFormed(r)
    ensures Returns(r, base, rangeEnd)
       <==> forall k: nat :: k < MAX_ITERATIONS ==>
              Occ(r, base, k).Some? || StoppedBefore(r, base, rangeEnd, 0, k)
  {
    hide Run, Occ, StoppedBefore;
    ReturnsFromIff(r, base, rangeEnd, 0);
  }

  // ----- windows -----

  lemma {:induction false} ShorterReturns(r: Rule, base: int, near: int, far: int, k: nat)
    requires WellFormed(r) && near <= far && Run(r, base, 0, 0, far, k).Some?
    ensures Run(r, base, 0, 0, near, k).Some?
    decreases MAX_ITERATIONS - k
  {
    hide Occ, PastUntil;
    if k < MAX_ITERATIONS && !Stops(r, near, k, Occ(r, base, k).value) {
      ShorterReturns(r, base, near, far, k + 1);
    }
  }
}
