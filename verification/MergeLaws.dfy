/** Conservation of the merge: every occurrence and every one-off event is accounted for exactly once. */
module MergeLaws {
  import opened Wrappers
  import opened Calendar
  import opened Rules
  import opened Iteration
  import opened SequenceLaws
  import opened Expansion
  import opened ExpandLaws
  import opened WindowLaw
  import opened ReturnLaws
  import opened TimeKeys
  import opened EventStore
  import opened Merge

  // ----- the entries of one occurrence, one parent -----

  predicate IsFor(x: ExpandedEvent, pid: int, date: string) {
    x.isRecurring && x.parentId == pid && x.occurrenceDate == date
  }

  /** The entries a list holds for one parent and one occurrence date. */
  function EntriesFor(s: seq<ExpandedEvent>, pid: int, date: string): seq<ExpandedEvent> {
    if s == [] then [] else (if IsFor(s[0], pid, date) then [s[0]] else []) + EntriesFor(s[1..], pid, date)
  }

  lemma {:induction false} EntriesForAppend(a: seq<ExpandedEvent>, b: seq<ExpandedEvent>, pid: int, date: string)
    ensures EntriesFor(a + b, pid, date) == EntriesFor(a, pid, date) + EntriesFor(b, pid, date)
  {
    if a == [] {
      assert a + b == b;
    } else {
      hide IsFor;
      assert (a + b)[1..] == a[1..] + b;
      EntriesForAppend(a[1..], b, pid, date);
      var first := if IsFor(a[0], pid, date) then [a[0]] else [];
      assert first + (EntriesFor(a[1..], pid, date) + EntriesFor(b, pid, date))
          == first + EntriesFor(a[1..], pid, date) + EntriesFor(b, pid, date);
    }
  }

  lemma {:induction false} NoEntriesFor(s: seq<ExpandedEvent>, pid: int, date: string)
    requires forall x :: x in s ==> !IsFor(x, pid, date)
    ensures EntriesFor(s, pid, date) == []
  {
    if s != [] {
      assert s[0] in s;
      NoEntriesFor(s[1..], pid, date);
    }
  }

  lemma {:induction false} EntriesForCount(s: seq<ExpandedEvent>, pid: int, date: string, x: ExpandedEvent)
    ensures multiset(EntriesFor(s, pid, date))[x] == if IsFor(x, pid, date) then multiset(s)[x] else 0
  {
    if s != [] {
      EntriesForCount(s[1..], pid, date, x);
      assert s == [s[0]] + s[1..];
    }
  }

  /** Sorting does not change which entries there are for an occurrence. */
  lemma EntriesForPermuted(s: seq<ExpandedEvent>, t: seq<ExpandedEvent>, pid: int, date: string)
    requires multiset(s) == multiset(t) && |EntriesFor(t, pid, date)| <= 1
    ensures EntriesFor(s, pid, date) == EntriesFor(t, pid, date)
  {
    hide EntriesFor, IsFor;
    var a, b := EntriesFor(s, pid, date), EntriesFor(t, pid, date);
    forall x ensures multiset(a)[x] == multiset(b)[x] {
      EntriesForCount(s, pid, date, x);
      EntriesForCount(t, pid, date, x);
    }
    OneElement(a, b);
  }

  lemma OneElement(a: seq<ExpandedEvent>, b: seq<ExpandedEvent>)
    requires |b| <= 1 && forall x :: multiset(a)[x] == multiset(b)[x]
    ensures a == b
  {
    assert multiset(a) == multiset(b);
    assert |a| == |multiset(a)| == |b|;
    if |b| == 1 { assert a[0] in multiset(a) && a[0] in multiset(b); }
  }

  lemma {:induction false} EntriesBelong(p: Event, exc: map<string, Event>, os: seq<Occurrence>, x: ExpandedEvent)
    requires x in Entries(p, exc, os)
    ensures x.isRecurring && x.parentId == p.id
    ensures exists o :: o in os && x.occurrenceDate == DateKey(o.start) && [x] == Entry(p, exc, o)
  {
    hide DateKey, TimeKey, Shown;
    if x in Entry(p, exc, os[0]) {
      assert os[0] in os;
    } else {
      EntriesBelong(p, exc, os[1..], x);
      var o :| o in os[1..] && x.occurrenceDate == DateKey(o.start) && [x] == Entry(p, exc, o);
      assert o in os;
    }
  }

  /** No two entries lie on one day. */
  ghost predicate DistinctDays(os: seq<Occurrence>) {
    forall i, j :: 0 <= i < j < |os| ==> DayNumber(os[i].start) != DayNumber(os[j].start)
  }

  lemma {:induction false} EntriesOfDay(p: Event, exc: map<string, Event>, os: seq<Occurrence>, i: nat)
    requires DistinctDays(os) && i < |os|
    ensures EntriesFor(Entries(p, exc, os), p.id, DateKey(os[i].start)) == Entry(p, exc, os[i])
  {
    hide DateKey, TimeKey, Shown, DayNumber;
    var date := DateKey(os[i].start);
    var first, rest := Entry(p, exc, os[0]), Entries(p, exc, os[1..]);
    EntriesForAppend(first, rest, p.id, date);
    if i == 0 {
      forall x | x in rest ensures !IsFor(x, p.id, date) {
        EntriesBelong(p, exc, os[1..], x);
        var o :| o in os[1..] && x.occurrenceDate == DateKey(o.start);
        DateKeyIff(o.start, os[0].start);
      }
      NoEntriesFor(rest, p.id, date);
      OwnEntry(p, exc, os[0]);
    } else {
      DateKeyIff(os[0].start, os[i].start);
      NoEntriesFor(first, p.id, date);
      EntriesOfDay(p, exc, os[1..], i - 1);
    }
  }

  lemma OwnEntry(p: Event, exc: map<string, Event>, o: Occurrence)
    ensures EntriesFor(Entry(p, exc, o), p.id, DateKey(o.start)) == Entry(p, exc, o)
  {
    hide DateKey, Shown;
    var e := Entry(p, exc, o);
    if |e| == 1 { assert e[1..] == []; }
  }

  // ----- within the whole merged list -----

  lemma SinglesAreNotFor(events: seq<Event>, pid: int, date: string)
    ensures EntriesFor(Singles(events), pid, date) == []
  {
    hide DateKey;
    NoEntriesFor(Singles(events), pid, date);
  }

  /** Parent ids of the list are distinct. */
  lemma {:induction false} OtherParentsAreNotFor(rows: seq<Event>, ps: seq<Event>, a: int, b: int, pid: int,
                                                 date: string)
    requires AllReturn(ps, b) && forall q :: q in ps ==> q.id != pid
    ensures EntriesFor(OfParents(rows, ps, a, b), pid, date) == []
  {
    hide RowReturns, OfParent;
    if ps != [] {
      var first := OfParent(rows, ps[0], a, b);
      EntriesForAppend(first, OfParents(rows, ps[1..], a, b), pid, date);
      OtherParentIsNotFor(rows, ps[0], a, b, pid, date);
      OtherParentsAreNotFor(rows, ps[1..], a, b, pid, date);
    }
  }

  lemma OtherParentIsNotFor(rows: seq<Event>, q: Event, a: int, b: int, pid: int, date: string)
    requires RowReturns(q, b) && q.id != pid
    ensures EntriesFor(OfParent(rows, q, a, b), pid, date) == []
  {
    hide RowReturns, OccurrencesOf, ExcMap;
    var exc, os := ExcMap(Where(rows, ExceptionOf(q.id))), OccurrencesOf(q, a, b);
    forall x | x in OfParent(rows, q, a, b) ensures !IsFor(x, pid, date) {
      EntriesBelong(q, exc, os, x);
    }
    NoEntriesFor(OfParent(rows, q, a, b), pid, date);
  }

  lemma {:induction false} ParentAmong(rows: seq<Event>, ps: seq<Event>, i: nat, a: int, b: int, date: string)
    requires AllReturn(ps, b) && DistinctIds(ps) && i < |ps|
    ensures RowReturns(ps[i], b)
    ensures EntriesFor(OfParents(rows, ps, a, b), ps[i].id, date)
         == EntriesFor(OfParent(rows, ps[i], a, b), ps[i].id, date)
  {
    hide RowReturns, OfParent;
    assert ps[i] in ps && ps[0] in ps;
    EntriesForAppend(OfParent(rows, ps[0], a, b), OfParents(rows, ps[1..], a, b), ps[i].id, date);
    if i == 0 {
      OtherParentsAreNotFor(rows, ps[1..], a, b, ps[0].id, date);
    } else {
      OtherParentIsNotFor(rows, ps[0], a, b, ps[i].id, date);
      ParentAmong(rows, ps[1..], i - 1, a, b, date);
    }
  }

  /** In the merged list a loaded parent has the entries of its own expansion and no others. */
  lemma MergedForParent(rows: seq<Event>, p: Event, a: int, b: int, date: string)
    requires DistinctIds(rows) && Viewable(rows, b) && p in rows && Recurring(b)(p)
    ensures RowReturns(p, b)
    ensures EntriesFor(Merged(rows, a, b), p.id, date) == EntriesFor(OfParent(rows, p, a, b), p.id, date)
  {
    hide RowReturns, OfParent, Recurring, OneOff;
    var ps := Where(rows, Recurring(b));
    InWhere(rows, Recurring(b), p);
    WhereKeepsIds(rows, Recurring(b));
    var i :| 0 <= i < |ps| && ps[i] == p;
    ParentAmong(rows, ps, i, a, b, date);
    SinglesAreNotFor(Where(rows, OneOff(a, b)), p.id, date);
    EntriesForAppend(Singles(Where(rows, OneOff(a, b))), OfParents(rows, ps, a, b), p.id, date);
  }

  // ----- the exception lookup -----

  /** At most one exception stands for any original start. */
  ghost predicate OnePerStart(exceptions: seq<Event>) {
    forall i, j :: 0 <= i < j < |exceptions| && exceptions[i].originalStartTime.Some?
      ==> exceptions[i].originalStartTime != exceptions[j].originalStartTime
  }

  lemma {:induction false} LookupNone(exceptions: seq<Event>, t: int)
    requires forall e :: e in exceptions ==> e.originalStartTime != Some(t)
    ensures TimeKey(t) !in ExcMap(exceptions)
  {
    hide TimeKey;
    if exceptions != [] {
      var n := |exceptions| - 1;
      LookupNone(exceptions[..n], t);
      assert exceptions[n] in exceptions;
      if exceptions[n].originalStartTime.Some? && TimeKey(exceptions[n].originalStartTime.value) == TimeKey(t) {
        TimeKeyInjective(exceptions[n].originalStartTime.value, t);
      }
    }
  }

  lemma {:induction false} LookupSome(exceptions: seq<Event>, i: nat, t: int)
    requires OnePerStart(exceptions) && i < |exceptions| && exceptions[i].originalStartTime == Some(t)
    ensures TimeKey(t) in ExcMap(exceptions) && ExcMap(exceptions)[TimeKey(t)] == exceptions[i]
  {
    hide TimeKey;
    var n := |exceptions| - 1;
    if i < n {
      LookupSome(exceptions[..n], i, t);
      if exceptions[n].originalStartTime.Some? && TimeKey(exceptions[n].originalStartTime.value) == TimeKey(t) {
        TimeKeyInjective(exceptions[n].originalStartTime.value, t);
      }
    }
  }

  // ----- conservation -----

  /** The rule of a row can be read and names no weekday twice. */
  predicate NoRepeatsRow(p: Event) {
    RuleOf(p).Some? && NoRepeats(RuleOf(p).value)
  }

  /** Where no two occurrences share a date, no two entries of an answer do. */
  lemma {:induction false} RunDays(r: Rule, base: int, duration: int, a: int, b: int, k: nat)
    requires WellFormed(r) && NoSharedDate(r, base) && Run(r, base, duration, a, b, k).Some?
    ensures DistinctDays(Run(r, base, duration, a, b, k).value)
    decreases MAX_ITERATIONS - k
  {
    hide Occ, Stops, NoSharedDate, DayNumber;
    if k < MAX_ITERATIONS && !Stops(r, b, k, Occ(r, base, k).value) {
      RunDays(r, base, duration, a, b, k + 1);
      var rest := Run(r, base, duration, a, b, k + 1).value;
      forall j | 0 <= j < |rest| ensures DayNumber(rest[j].start) != DayNumber(Occ(r, base, k).value) {
        RunHolds(r, base, duration, a, b, k + 1, k + 1, rest[j]);
        DifferentDays(r, base, k, rest[j].start);
      }
    }
  }

  lemma DifferentDays(r: Rule, base: int, k: nat, t: int)
    requires WellFormed(r) && NoSharedDate(r, base) && Occ(r, base, k).Some?
    requires exists m: nat :: k < m && Occ(r, base, m) == Some(t)
    ensures DayNumber(t) != DayNumber(Occ(r, base, k).value)
  {
    hide Occ, DayNumber;
  }

  lemma AnswerDays(r: Rule, base: int, duration: int, a: int, b: int)
    requires NoRepeats(r) && Returns(r, base, b)
    ensures DistinctDays(Answer(r, base, duration, a, b))
  {
    hide Run, DistinctDays, NoSharedDate;
    RunWindowFree(r, base, duration, a, b, 0);
    OnePerDate(r, base);
    RunDays(r, base, duration, a, b, 0);
  }

  /**
    Each expanded occurrence of a parent is shown exactly once in the merged and
    sorted list: as its exception if it has one, not at all if that is cancelled,
    and as the parent's copy otherwise.
  */
  lemma OccurrenceShownOnce(rows: seq<Event>, p: Event, o: Occurrence, a: int, b: int, results: seq<ExpandedEvent>)
    requires DistinctIds(rows) && Viewable(rows, b) && p in rows && NoRepeatsRow(p)
    requires p.recurrenceRule != "" && p.recurrenceParentId.None?
    requires OnePerStart(Where(rows, ExceptionOf(p.id)))
    requires multiset(results) == multiset(Merged(rows, a, b))
    requires RowReturns(p, b) && o in OccurrencesOf(p, a, b)
    ensures StandsFor(rows, p, o, EntriesFor(results, p.id, DateKey(o.start)))
  {
    hide RuleOf, NoRepeats, Answer, Returns, TimeKey, DateKey, ExcMap, Merged, DistinctDays, OnePerStart;
    if p.startTime >= b { LateParentIsEmpty(p, a, b); }
    hide StandsFor, Entries, EntriesFor, Entry, Where, WellFormed, ExceptionOf;
    var r := RuleOf(p).value;
    var excs, os, date := Where(rows, ExceptionOf(p.id)), OccurrencesOf(p, a, b), DateKey(o.start);
    AnswerDays(r, p.startTime, p.endTime - p.startTime, a, b);
    var i :| 0 <= i < |os| && os[i] == o;
    EntriesOfDay(p, ExcMap(excs), os, i);
    MergedForParent(rows, p, a, b, date);
    EntriesForPermuted(results, Merged(rows, a, b), p.id, date);
    EntryStandsFor(rows, p, o);
  }

  /** A list of entries is what the table says about one occurrence. */
  ghost predicate StandsFor(rows: seq<Event>, p: Event, o: Occurrence, shown: seq<ExpandedEvent>) {
    && (forall e :: e in rows && e.recurrenceParentId == Some(p.id) && e.originalStartTime == Some(o.start) ==>
          shown == if e.cancelled then [] else [ExpandedEvent(e, true, p.id, DateKey(o.start))])
    && ((forall e :: e in rows && e.recurrenceParentId == Some(p.id) ==> e.originalStartTime != Some(o.start)) ==>
          shown == [ExpandedEvent(p.(startTime := o.start, endTime := o.end), true, p.id, DateKey(o.start))])
  }

  lemma EntryStandsFor(rows: seq<Event>, p: Event, o: Occurrence)
    requires OnePerStart(Where(rows, ExceptionOf(p.id)))
    ensures StandsFor(rows, p, o, Entry(p, ExcMap(Where(rows, ExceptionOf(p.id))), o))
  {
    hide TimeKey, DateKey, ExcMap, OnePerStart;
    var excs, date := Where(rows, ExceptionOf(p.id)), DateKey(o.start);
    forall e | e in rows && e.recurrenceParentId == Some(p.id) && e.originalStartTime == Some(o.start)
      ensures Entry(p, ExcMap(excs), o) == if e.cancelled then [] else [ExpandedEvent(e, true, p.id, date)]
    {
      InWhere(rows, ExceptionOf(p.id), e);
      var j :| 0 <= j < |excs| && excs[j] == e;
      LookupSome(excs, j, o.start);
    }
    if forall e :: e in rows && e.recurrenceParentId == Some(p.id) ==> e.originalStartTime != Some(o.start) {
      forall e | e in excs ensures e.originalStartTime != Some(o.start) { InWhere(rows, ExceptionOf(p.id), e); }
      LookupNone(excs, o.start);
    }
  }

  lemma {:induction false} SinglesCount(events: seq<Event>, e: Event)
    requires DistinctIds(events)
    ensures multiset(Singles(events))[Single(e)] == if e in events then 1 else 0
  {
    if events != [] {
      var f, rest := events[0], events[1..];
      SinglesCount(rest, e);
      SinglesSplit(events);
      assert e in events <==> e == f || e in rest;
    }
  }

  lemma SinglesSplit(events: seq<Event>)
    requires events != []
    ensures multiset(Singles(events)) == multiset{Single(events[0])} + multiset(Singles(events[1..]))
  {
    hide Single;
    assert Singles(events) == [Single(events[0])] + Singles(events[1..]);
  }

  lemma {:induction false} OfParentsRecurring(rows: seq<Event>, ps: seq<Event>, a: int, b: int, x: ExpandedEvent)
    requires AllReturn(ps, b) && x in OfParents(rows, ps, a, b)
    ensures exists p, o :: p in ps && RowReturns(p, b) && o in OccurrencesOf(p, a, b)
                           && [x] == Entry(p, ExcMap(Where(rows, ExceptionOf(p.id))), o)
  {
    hide RowReturns, OccurrencesOf, DateKey, TimeKey, Shown, ExcMap;
    if x in OfParent(rows, ps[0], a, b) {
      var exc := ExcMap(Where(rows, ExceptionOf(ps[0].id)));
      EntriesBelong(ps[0], exc, OccurrencesOf(ps[0], a, b), x);
      var o :| o in OccurrencesOf(ps[0], a, b) && [x] == Entry(ps[0], exc, o);
      assert ps[0] in ps;
    } else {
      OfParentsRecurring(rows, ps[1..], a, b, x);
      var p, o :| p in ps[1..] && RowReturns(p, b) && o in OccurrencesOf(p, a, b)
                  && [x] == Entry(p, ExcMap(Where(rows, ExceptionOf(p.id))), o);
      assert p in ps;
    }
  }

  /**
    Each one-off event, a row with neither rule nor parent, is listed exactly once if it
    starts before the window ends and ends after it starts, and otherwise not at all.
  */
  lemma OneOffShownOnce(rows: seq<Event>, e: Event, a: int, b: int)
    requires DistinctIds(rows) && Viewable(rows, b)
    ensures multiset(Merged(rows, a, b))[ExpandedEvent(e, false, 0, DateKey(e.startTime))]
         == if e in rows && e.recurrenceRule == "" && e.recurrenceParentId.None? && e.startTime < b && e.endTime > a
            then 1 else 0
  {
    hide DateKey, RowReturns, Recurring;
    var ones, ps := Where(rows, OneOff(a, b)), Where(rows, Recurring(b));
    WhereKeepsIds(rows, OneOff(a, b));
    InWhere(rows, OneOff(a, b), e);
    SinglesCount(ones, e);
    if Single(e) in OfParents(rows, ps, a, b) {
      OfParentsRecurring(rows, ps, a, b, Single(e));
    }
  }

  /** Nothing else is listed: every entry is such a one-off or the entry of some occurrence of a recurring row. */
  lemma NothingInvented(rows: seq<Event>, a: int, b: int, x: ExpandedEvent)
    requires Viewable(rows, b) && x in Merged(rows, a, b)
    ensures (exists e :: e in rows && e.recurrenceRule == "" && e.recurrenceParentId.None?
               && e.startTime < b && e.endTime > a && x == ExpandedEvent(e, false, 0, DateKey(e.startTime)))
         || (exists p, o :: p in rows && p.recurrenceRule != "" && p.recurrenceParentId.None? && p.startTime < b
               && RowReturns(p, b) && o in OccurrencesOf(p, a, b)
               && [x] == Entry(p, ExcMap(Where(rows, ExceptionOf(p.id))), o))
  {
    hide DateKey, RowReturns, OccurrencesOf, Entry, ExcMap;
    var ones, ps := Where(rows, OneOff(a, b)), Where(rows, Recurring(b));
    if x in Singles(ones) {
      var i :| 0 <= i < |ones| && x == Single(ones[i]);
      InWhere(rows, OneOff(a, b), ones[i]);
    } else {
      OfParentsRecurring(rows, ps, a, b, x);
      var p, o :| p in ps && RowReturns(p, b) && o in OccurrencesOf(p, a, b)
                  && [x] == Entry(p, ExcMap(Where(rows, ExceptionOf(p.id))), o);
      InWhere(rows, Recurring(b), p);
    }
  }

  /** The bare rows listed for a list of entries. */
  lemma {:induction false} EventsCount(s: seq<ExpandedEvent>, e: Event, x: ExpandedEvent)
    requires x.event == e && forall y :: y in s && y.event == e ==> y == x
    ensures multiset(Events(s))[e] == multiset(s)[x]
  {
    hide Events;
    if s == [] {
      EventsSplit(s);
    } else {
      EventsCount(s[1..], e, x);
      EventsSplit(s);
      assert s[0] in s;
    }
  }

  lemma EventsSplit(s: seq<ExpandedEvent>)
    ensures s == [] ==> Events(s) == []
    ensures s != [] ==> multiset(Events(s)) == multiset{s[0].event} + multiset(Events(s[1..]))
    ensures s != [] ==> multiset(s) == multiset{s[0]} + multiset(s[1..])
  {
    hide Events;
    if s == [] { NoEvents(); }
    if s != [] {
      EventsHead(s);
      HeadCount(s[0].event, Events(s[1..]));
      HeadCount(s[0], s[1..]);
      assert s == [s[0]] + s[1..];
    }
  }

  lemma NoEvents()
    ensures Events([]) == []
  {
  }

  lemma EventsHead(s: seq<ExpandedEvent>)
    requires s != []
    ensures Events(s) == [s[0].event] + Events(s[1..])
  {
  }

  lemma HeadCount<T>(x: T, rest: seq<T>)
    ensures multiset([x] + rest) == multiset{x} + multiset(rest)
  {
  }

  /** The second implementation lists each one-off event once too. */
  lemma OneOffListedOnce(rows: seq<Event>, e: Event, a: int, b: int)
    requires DistinctIds(rows) && Viewable(rows, b) && e.recurrenceRule == "" && e.recurrenceParentId.None?
    ensures multiset(Events(Merged(rows, a, b)))[e] == if e in rows && e.startTime < b && e.endTime > a then 1 else 0
  {
    hide DateKey, Merged, Viewable;
    var x := ExpandedEvent(e, false, 0, DateKey(e.startTime));
    OneOffShownOnce(rows, e, a, b);
    forall y | y in Merged(rows, a, b) && y.event == e ensures y == x { OneOffEntry(rows, a, b, y); }
    EventsCount(Merged(rows, a, b), e, x);
  }

  /** An entry whose row has neither rule nor parent stands for a one-off event. */
  lemma OneOffEntry(rows: seq<Event>, a: int, b: int, y: ExpandedEvent)
    requires Viewable(rows, b) && y in Merged(rows, a, b)
    requires y.event.recurrenceRule == "" && y.event.recurrenceParentId.None?
    ensures y == ExpandedEvent(y.event, false, 0, DateKey(y.event.startTime))
  {
    hide DateKey, Merged, RowReturns, OccurrencesOf, ExcMap, Entry, Where, Viewable;
    NothingInvented(rows, a, b, y);
    if p, o :| p in rows && p.recurrenceRule != "" && p.recurrenceParentId.None? && p.startTime < b
               && RowReturns(p, b) && o in OccurrencesOf(p, a, b)
               && [y] == Entry(p, ExcMap(Where(rows, ExceptionOf(p.id))), o) {
      EntryIs(rows, p, o, y);
    }
  }

  // ----- loading only parents that start before the window ends -----

  /** A recurring row, whenever it starts. */
  function AnyRecurring(): Event -> bool {
    (e: Event) => e.recurrenceRule != "" && e.recurrenceParentId.None?
  }

  /** A parent that starts at or after the end of the window has no occurrence in it. */
  lemma LateParentIsEmpty(p: Event, a: int, b: int)
    requires p.startTime >= b
    ensures RowReturns(p, b) && OccurrencesOf(p, a, b) == []
  {
    hide RuleOf, Occ, PastUntil;
    if RuleOf(p).Some? {
      var r := RuleOf(p).value;
      FirstOccurrence(r, p.startTime);
      assert Run(r, p.startTime, 0, 0, b, 0) == Some([]);
      assert Run(r, p.startTime, p.endTime - p.startTime, a, b, 0) == Some([]);
    }
  }

  lemma {:induction false} LoadingLosesNothingFrom(all: seq<Event>, rows: seq<Event>, a: int, b: int)
    requires AllReturn(Where(rows, Recurring(b)), b)
    ensures AllReturn(Where(rows, AnyRecurring()), b)
    ensures OfParents(all, Where(rows, AnyRecurring()), a, b) == OfParents(all, Where(rows, Recurring(b)), a, b)
  {
    hide RowReturns, OfParent;
    if rows != [] {
      var e := rows[0];
      var few, many := Where(rows[1..], Recurring(b)), Where(rows[1..], AnyRecurring());
      assert forall p :: p in few ==> p in Where(rows, Recurring(b));
      LoadingLosesNothingFrom(all, rows[1..], a, b);
      if AnyRecurring()(e) {
        assert ([e] + many)[1..] == many;
        if Recurring(b)(e) {
          assert e in Where(rows, Recurring(b));
          assert ([e] + few)[1..] == few;
        } else {
          LateParentIsEmpty(e, a, b);
          LateParentAddsNothing(all, e, a, b);
          assert [] + few == few;
          assert [] + OfParents(all, many, a, b) == OfParents(all, many, a, b);
        }
      } else {
        assert [] + few == few && [] + many == many;
      }
    }
  }

  lemma LateParentAddsNothing(rows: seq<Event>, p: Event, a: int, b: int)
    requires p.startTime >= b && RowReturns(p, b)
    ensures OfParent(rows, p, a, b) == []
  {
    hide RowReturns, OccurrencesOf;
    LateParentIsEmpty(p, a, b);
  }

  /** ListRecurring's cut-off loses nothing: expanding every recurring row gives the same list. */
  lemma LoadingLosesNothing(rows: seq<Event>, a: int, b: int)
    requires Viewable(rows, b)
    ensures AllReturn(Where(rows, AnyRecurring()), b)
    ensures Merged(rows, a, b)
         == Singles(Where(rows, OneOff(a, b))) + OfParents(rows, Where(rows, AnyRecurring()), a, b)
  {
    hide RowReturns, OfParent, Recurring, OneOff;
    LoadingLosesNothingFrom(rows, rows, a, b);
  }

  // ----- the order of the list -----

  /** All-day entries come before the others, and within each kind the earlier start comes first. */
  lemma ShownInOrder(results: seq<ExpandedEvent>)
    requires SortedBy(results, ShownBefore)
    ensures forall i, j :: 0 <= i < j < |results| ==>
              && (results[j].event.allDay ==> results[i].event.allDay)
              && (results[i].event.allDay == results[j].event.allDay ==>
                    results[i].event.startTime <= results[j].event.startTime)
  {
    assert forall i, j :: 0 <= i < j < |results| ==> !ShownBefore(results[j], results[i]);
  }

  /** The second implementation lists by start alone. */
  lemma ListedInStartOrder(events: seq<Event>)
    requires SortedBy(events, StartsBefore)
    ensures forall i, j :: 0 <= i < j < |events| ==> events[i].startTime <= events[j].startTime
  {
    assert forall i, j :: 0 <= i < j < |events| ==> !StartsBefore(events[j], events[i]);
  }

  // ----- which windows can be viewed at all -----

  /** The view of a window returns exactly when every readable parent that starts before its end can be expanded. */
  lemma ViewableIff(rows: seq<Event>, b: int)
    ensures Viewable(rows, b)
       <==> forall p :: p in rows && Recurring(b)(p) && RuleOf(p).Some? ==> CanExpand(RuleOf(p).value, p.startTime, b)
  {
    hide RuleOf, CanExpand, Returns, Recurring;
    forall p ensures RowReturns(p, b) <==> RuleOf(p).Some? ==> CanExpand(RuleOf(p).value, p.startTime, b) {
      if RuleOf(p).Some? { ExpandReturnsIff(RuleOf(p).value, p.startTime, b); }
    }
    forall p ensures p in Where(rows, Recurring(b)) <==> p in rows && Recurring(b)(p) {
      InWhere(rows, Recurring(b), p);
    }
  }

  // ----- moved exceptions -----

  /** An exception of a parent that replaces the occurrence starting at t. */
  predicate Replaces(rows: seq<Event>, e: Event, p: Event, t: int) {
    e in rows && e.recurrenceParentId == Some(p.id) && e.originalStartTime == Some(t) && !e.cancelled
  }

  /** Some occurrence of the parent in the window starts at t. */
  ghost predicate ExpandsTo(p: Event, a: int, b: int, t: int)
    requires RowReturns(p, b)
  {
    exists o :: o in OccurrencesOf(p, a, b) && o.start == t
  }

  lemma {:induction false} EntriesHold(p: Event, exc: map<string, Event>, os: seq<Occurrence>, o: Occurrence)
    requires o in os
    ensures forall x :: x in Entry(p, exc, o) ==> x in Entries(p, exc, os)
  {
    hide Entry;
    if o != os[0] { EntriesHold(p, exc, os[1..], o); }
  }

  lemma {:induction false} OfParentsHold(rows: seq<Event>, ps: seq<Event>, p: Event, a: int, b: int, x: ExpandedEvent)
    requires AllReturn(ps, b) && p in ps && RowReturns(p, b) && x in OfParent(rows, p, a, b)
    ensures x in OfParents(rows, ps, a, b)
  {
    hide RowReturns, OfParent;
    if p != ps[0] { OfParentsHold(rows, ps[1..], p, a, b, x); }
  }

  /** The entry of any occurrence of any loaded parent is in the list. */
  lemma OccurrenceListed(rows: seq<Event>, p: Event, o: Occurrence, a: int, b: int, x: ExpandedEvent)
    requires Viewable(rows, b) && p in rows && Recurring(b)(p) && RowReturns(p, b) && o in OccurrencesOf(p, a, b)
    requires x in Entry(p, ExcMap(Where(rows, ExceptionOf(p.id))), o)
    ensures x in Merged(rows, a, b)
  {
    hide RowReturns, OccurrencesOf, Recurring, OneOff, Entry, Entries, ExcMap;
    InWhere(rows, Recurring(b), p);
    EntriesHold(p, ExcMap(Where(rows, ExceptionOf(p.id))), OccurrencesOf(p, a, b), o);
    OfParentsHold(rows, Where(rows, Recurring(b)), p, a, b, x);
  }

  /** What the lookup holds under a key is an exception filed under it. */
  lemma {:induction false} LookupIsFiled(exceptions: seq<Event>, key: string)
    requires key in ExcMap(exceptions)
    ensures var e := ExcMap(exceptions)[key];
            e in exceptions && e.originalStartTime.Some? && TimeKey(e.originalStartTime.value) == key
  {
    hide TimeKey;
    var n := |exceptions| - 1;
    if exceptions[n].originalStartTime.None? || TimeKey(exceptions[n].originalStartTime.value) != key {
      LookupIsFiled(exceptions[..n], key);
    }
  }

  /** An entry of an occurrence is the parent's copy or an exception that replaces the occurrence. */
  lemma EntryIs(rows: seq<Event>, p: Event, o: Occurrence, x: ExpandedEvent)
    requires [x] == Entry(p, ExcMap(Where(rows, ExceptionOf(p.id))), o)
    ensures x.event == Virtual(p, o) || Replaces(rows, x.event, p, o.start)
  {
    hide TimeKey, DateKey, ExcMap, Virtual;
    var excs, key := Where(rows, ExceptionOf(p.id)), TimeKey(o.start);
    if key in ExcMap(excs) {
      var e := ExcMap(excs)[key];
      LookupIsFiled(excs, key);
      TimeKeyInjective(e.originalStartTime.value, o.start);
      InWhere(rows, ExceptionOf(p.id), e);
    }
  }

  /** An entry for an exception comes from an occurrence of some loaded parent. */
  lemma EntryHasOccurrence(rows: seq<Event>, a: int, b: int, x: ExpandedEvent) returns (q: Event, o: Occurrence)
    requires Viewable(rows, b) && x in Merged(rows, a, b) && x.event.recurrenceParentId.Some?
    ensures q in rows && Recurring(b)(q) && RowReturns(q, b) && o in OccurrencesOf(q, a, b)
    ensures [x] == Entry(q, ExcMap(Where(rows, ExceptionOf(q.id))), o)
  {
    hide RowReturns, OccurrencesOf, Entry, Merged, ExcMap, Where, DateKey;
    NothingInvented(rows, a, b, x);
    assert forall d :: x == Single(d) ==> d.recurrenceParentId.Some?;
    q, o :| q in rows && q.recurrenceRule != "" && q.recurrenceParentId.None? && q.startTime < b
            && RowReturns(q, b) && o in OccurrencesOf(q, a, b)
            && [x] == Entry(q, ExcMap(Where(rows, ExceptionOf(q.id))), o);
  }

  lemma ListedExceptionHasOccurrence(rows: seq<Event>, e: Event, p: Event, t: int, a: int, b: int, x: ExpandedEvent)
    requires DistinctIds(rows) && Viewable(rows, b) && p in rows && Replaces(rows, e, p, t)
    requires x in Merged(rows, a, b) && x.event == e
    ensures Recurring(b)(p) && RowReturns(p, b) && ExpandsTo(p, a, b, t)
  {
    hide RowReturns, OccurrencesOf, Entry, Merged, ExcMap, Where, Viewable;
    var q, o := EntryHasOccurrence(rows, a, b, x);
    EntryIs(rows, q, o, x);
    SameRow(rows, p, q);
  }

  lemma SameRow(rows: seq<Event>, p: Event, q: Event)
    requires DistinctIds(rows) && p in rows && q in rows && p.id == q.id
    ensures p == q
  {
  }

  /**
    An exception is listed in a window exactly when the occurrence it replaces lies
    there, whatever its own time is: moved to another day it stays in the window of
    its original start and is missing from the window of its new one.
  */
  lemma ExceptionListedIff(rows: seq<Event>, e: Event, p: Event, t: int, a: int, b: int)
    requires DistinctIds(rows) && Viewable(rows, b) && p in rows && AnyRecurring()(p)
    requires OnePerStart(Where(rows, ExceptionOf(p.id))) && Replaces(rows, e, p, t)
    ensures RowReturns(p, b)
    ensures (exists x :: x in Merged(rows, a, b) && x.event == e) <==> ExpandsTo(p, a, b, t)
  {
    hide RowReturns, OccurrencesOf, TimeKey, DateKey, ExcMap, OnePerStart, Merged, Where;
    if p.startTime >= b { LateParentIsEmpty(p, a, b); } else { InWhere(rows, Recurring(b), p); }
    if x :| x in Merged(rows, a, b) && x.event == e { ListedExceptionHasOccurrence(rows, e, p, t, a, b, x); }
    if o :| o in OccurrencesOf(p, a, b) && o.start == t {
      var x := ExpandedEvent(e, true, p.id, DateKey(t));
      ReplacementIsEntry(rows, e, p, o);
      OccurrenceListed(rows, p, o, a, b, x);
    }
  }

  lemma ReplacementIsEntry(rows: seq<Event>, e: Event, p: Event, o: Occurrence)
    requires OnePerStart(Where(rows, ExceptionOf(p.id))) && Replaces(rows, e, p, o.start)
    ensures Entry(p, ExcMap(Where(rows, ExceptionOf(p.id))), o) == [ExpandedEvent(e, true, p.id, DateKey(o.start))]
  {
    hide TimeKey, DateKey, ExcMap, OnePerStart, Entry, Where;
    EntryStandsFor(rows, p, o);
  }

  predicate InsideWindow(e: Event, a: int, b: int) {
    Overlaps(e.startTime, e.endTime, a, b)
  }

  /** An exception that replaces an occurrence lying in the window. */
  ghost predicate ReplacesWithin(rows: seq<Event>, e: Event, p: Event, t: int, a: int, b: int) {
    p in rows && Recurring(b)(p) && Replaces(rows, e, p, t) && RowReturns(p, b) && ExpandsTo(p, a, b, t)
  }

  /**
    The list holds only events that overlap the window exactly when every exception
    that replaces an occurrence in the window does.
  */
  lemma AllInsideIff(rows: seq<Event>, a: int, b: int)
    requires DistinctIds(rows) && Viewable(rows, b)
    requires forall p :: p in rows ==> OnePerStart(Where(rows, ExceptionOf(p.id)))
    ensures (forall x :: x in Merged(rows, a, b) ==> InsideWindow(x.event, a, b))
       <==> forall e, p, t :: ReplacesWithin(rows, e, p, t, a, b) ==> InsideWindow(e, a, b)
  {
    hide RowReturns, OccurrencesOf, TimeKey, DateKey, ExcMap, OnePerStart, Merged, Where, Entry;
    if forall x :: x in Merged(rows, a, b) ==> InsideWindow(x.event, a, b) {
      forall e, p, t | ReplacesWithin(rows, e, p, t, a, b)
        ensures InsideWindow(e, a, b)
      {
        ExceptionListedIff(rows, e, p, t, a, b);
      }
    } else {
      var x :| x in Merged(rows, a, b) && !InsideWindow(x.event, a, b);
      OutsideIsException(rows, a, b, x);
    }
  }

  lemma OutsideIsException(rows: seq<Event>, a: int, b: int, x: ExpandedEvent)
    requires Viewable(rows, b) && x in Merged(rows, a, b) && !InsideWindow(x.event, a, b)
    ensures exists p, t :: ReplacesWithin(rows, x.event, p, t, a, b)
  {
    hide RowReturns, OccurrencesOf, Entry, Merged, DateKey, ExcMap;
    NothingInvented(rows, a, b, x);
    var p, o :| p in rows && p.recurrenceRule != "" && p.recurrenceParentId.None? && p.startTime < b
                && RowReturns(p, b) && o in OccurrencesOf(p, a, b)
                && [x] == Entry(p, ExcMap(Where(rows, ExceptionOf(p.id))), o);
    EntryIs(rows, p, o, x);
    OccurrencesInside(p, a, b, o);
    assert ReplacesWithin(rows, x.event, p, o.start, a, b);
  }

  lemma OccurrencesInside(p: Event, a: int, b: int, o: Occurrence)
    requires RowReturns(p, b) && o in OccurrencesOf(p, a, b)
    ensures Overlaps(o.start, o.end, a, b) && TimeOfDay(o.start) == TimeOfDay(p.startTime)
  {
    hide RuleOf, Answer, Returns;
    AnswerOverlaps(RuleOf(p).value, p.startTime, p.endTime - p.startTime, a, b, o);
  }
}
