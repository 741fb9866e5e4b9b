/** Merging one-off events, expanded recurring events and their exceptions into one list. */
module Merge {
  import opened Wrappers
  import opened Rules
  import opened Expansion
  import opened RRule
  import RRuleLaws
  import opened TimeKeys
  import opened EventStore

  datatype ExpandedEvent = ExpandedEvent(event: Event, isRecurring: bool, parentId: int, occurrenceDate: string)

  /** The lookup built from the exceptions of one parent; a later row replaces an earlier one. */
  function ExcMap(exceptions: seq<Event>): map<string, Event> {
    if exceptions == [] then map[]
    else
      var n := |exceptions| - 1;
      var m := ExcMap(exceptions[..n]);
      if exceptions[n].originalStartTime.Some?
      then m[TimeKey(exceptions[n].originalStartTime.value) := exceptions[n]] else m
  }

  /** The parent's row with the times of one occurrence. */
  function Virtual(parent: Event, o: Occurrence): Event {
    parent.(startTime := o.start, endTime := o.end)
  }

  /** What one occurrence shows: its exception, the parent's copy, or nothing if cancelled. */
  function Shown(parent: Event, exc: map<string, Event>, o: Occurrence): seq<Event> {
    var key := TimeKey(o.start);
    if key !in exc then [Virtual(parent, o)]
    else if exc[key].cancelled then []
    else [exc[key]]
  }

  /** The entry of one occurrence in the merged list. */
  function Entry(parent: Event, exc: map<string, Event>, o: Occurrence): (s: seq<ExpandedEvent>)
    ensures |s| == |Shown(parent, exc, o)| <= 1
    ensures |s| == 1 ==> s == [ExpandedEvent(Shown(parent, exc, o)[0], true, parent.id, DateKey(o.start))]
  {
    var e := Shown(parent, exc, o);
    if e == [] then [] else [ExpandedEvent(e[0], true, parent.id, DateKey(o.start))]
  }

  function Entries(parent: Event, exc: map<string, Event>, os: seq<Occurrence>): seq<ExpandedEvent> {
    if os == [] then [] else Entry(parent, exc, os[0]) + Entries(parent, exc, os[1..])
  }

  function Single(e: Event): ExpandedEvent {
    ExpandedEvent(e, false, 0, DateKey(e.startTime))
  }

  function Singles(events: seq<Event>): (s: seq<ExpandedEvent>)
    ensures |s| == |events| && forall i :: 0 <= i < |events| ==> s[i] == Single(events[i])
  {
    seq(|events|, i requires 0 <= i < |events| => Single(events[i]))
  }

  /** The rule of a row, if it can be read. */
  function RuleOf(p: Event): (r: Option<Rule>)
    ensures r.Some? ==> WellFormed(r.value)
  {
    hide Parsed, RRuleLaws.Legible;
    match Parsed(p.recurrenceRule)
    case Err(_) => None
    case Ok(r) =>
      RRuleLaws.ParseAccepts(p.recurrenceRule);
      Some(r)
  }

  /** The expansion of one row returns. */
  ghost predicate RowReturns(p: Event, rangeEnd: int) {
    RuleOf(p).Some? ==> Returns(RuleOf(p).value, p.startTime, rangeEnd)
  }

  /** The expanded occurrences of one row; none if its rule cannot be read. */
  ghost function OccurrencesOf(p: Event, rangeStart: int, rangeEnd: int): seq<Occurrence>
    requires RowReturns(p, rangeEnd)
  {
    hide RuleOf, Answer, Returns;
    if RuleOf(p).None? then []
    else Answer(RuleOf(p).value, p.startTime, p.endTime - p.startTime, rangeStart, rangeEnd)
  }

  ghost function OfParent(rows: seq<Event>, p: Event, rangeStart: int, rangeEnd: int): seq<ExpandedEvent>
    requires RowReturns(p, rangeEnd)
  {
    Entries(p, ExcMap(Where(rows, ExceptionOf(p.id))), OccurrencesOf(p, rangeStart, rangeEnd))
  }

  ghost predicate AllReturn(parents: seq<Event>, rangeEnd: int) {
    forall p :: p in parents ==> RowReturns(p, rangeEnd)
  }

  ghost function OfParents(rows: seq<Event>, parents: seq<Event>, rangeStart: int, rangeEnd: int): seq<ExpandedEvent>
    requires AllReturn(parents, rangeEnd)
  {
    if parents == [] then []
    else OfParent(rows, parents[0], rangeStart, rangeEnd) + OfParents(rows, parents[1..], rangeStart, rangeEnd)
  }

  /** The view of a table in a window can be computed: every loaded parent's expansion returns. */
  ghost predicate Viewable(rows: seq<Event>, rangeEnd: int) {
    AllReturn(Where(rows, Recurring(rangeEnd)), rangeEnd)
  }

  /** The merged list before sorting. */
  ghost function Merged(rows: seq<Event>, rangeStart: int, rangeEnd: int): seq<ExpandedEvent>
    requires Viewable(rows, rangeEnd)
  {
    Singles(Where(rows, OneOff(rangeStart, rangeEnd)))
    + OfParents(rows, Where(rows, Recurring(rangeEnd)), rangeStart, rangeEnd)
  }

  function Events(s: seq<ExpandedEvent>): (events: seq<Event>)
    ensures |events| == |s| && forall i :: 0 <= i < |s| ==> events[i] == s[i].event
  {
    seq(|s|, i requires 0 <= i < |s| => s[i].event)
  }

  lemma EventsAppend(a: seq<ExpandedEvent>, b: seq<ExpandedEvent>)
    ensures Events(a + b) == Events(a) + Events(b)
  {
  }

  lemma EventsOfSingles(events: seq<Event>)
    ensures Events(Singles(events)) == events
  {
    hide DateKey;
  }

  // ----- sort.Slice -----

  ghost predicate StrictWeak<T(!new)>(less: (T, T) -> bool) {
    && (forall a, b :: less(a, b) ==> !less(b, a))
    && (forall a, b, c :: !less(b, a) && !less(c, b) ==> !less(c, a))
  }

  ghost predicate SortedBy<T>(s: seq<T>, less: (T, T) -> bool) {
    forall i, j :: 0 <= i < j < |s| ==> !less(s[j], s[i])
  }

  /** Position at which x keeps a sorted sequence sorted. */
  method Place<T(!new)>(s: seq<T>, x: T, less: (T, T) -> bool) returns (k: nat)
    requires StrictWeak(less) && SortedBy(s, less)
    ensures k <= |s| && SortedBy(s[..k] + [x] + s[k..], less)
  {
    k := |s|;
    while k > 0 && less(x, s[k - 1])
      invariant k <= |s| && forall j :: k <= j < |s| ==> less(x, s[j])
    {
      assert forall j :: k <= j < |s| ==> !less(s[j], x);
      k := k - 1;
    }
    assert forall i :: 0 <= i < k ==> !less(x, s[i]);
  }

  /** Some permutation in order, which is all that sort.Slice promises. */
  method SortSlice<T(!new)>(s: seq<T>, less: (T, T) -> bool) returns (r: seq<T>)
    requires StrictWeak(less)
    ensures multiset(r) == multiset(s) && SortedBy(r, less)
  {
    r := [];
    for i := 0 to |s|
      invariant multiset(r) == multiset(s[..i]) && SortedBy(r, less)
    {
      var k := Place(r, s[i], less);
      assert s[..i + 1] == s[..i] + [s[i]];
      assert r == r[..k] + r[k..];
      r := r[..k] + [s[i]] + r[k..];
    }
    assert s[..|s|] == s;
  }

  /** All-day entries first, then by start. */
  predicate ShownBefore(a: ExpandedEvent, b: ExpandedEvent) {
    if a.event.allDay != b.event.allDay then a.event.allDay else a.event.startTime < b.event.startTime
  }

  predicate StartsBefore(a: Event, b: Event) {
    a.startTime < b.startTime
  }

  // ----- the two implementations -----

  method BuildExcMap(exceptions: seq<Event>) returns (excMap: map<string, Event>)
    ensures excMap == ExcMap(exceptions)
  {
    hide TimeKey;
    excMap := map[];
    for i := 0 to |exceptions|
      invariant excMap == ExcMap(exceptions[..i])
    {
      assert exceptions[..i + 1][..i] == exceptions[..i];
      var exc := exceptions[i];
      if exc.originalStartTime.Some? {
        var key := TimeKey(exc.originalStartTime.value);
        excMap := excMap[key := exc];
      }
    }
    assert exceptions[..|exceptions|] == exceptions;
  }

  lemma NoEntries(parent: Event, exc: map<string, Event>)
    ensures Entries(parent, exc, []) == []
  {
  }

  lemma EntriesStep(parent: Event, exc: map<string, Event>, os: seq<Occurrence>, i: nat)
    requires i < |os|
    ensures Entries(parent, exc, os[i..]) == Entry(parent, exc, os[i]) + Entries(parent, exc, os[i + 1..])
  {
    hide Entry;
    assert os[i..][1..] == os[i + 1..];
  }

  /** The inner loop of both implementations. */
  method AppendEntries(results: seq<ExpandedEvent>, parent: Event, excMap: map<string, Event>,
                       occurrences: seq<Occurrence>)
    returns (out: seq<ExpandedEvent>)
    ensures out == results + Entries(parent, excMap, occurrences)
  {
    hide TimeKey, DateKey;
    out := results;
    var i := 0;
    assert occurrences[0..] == occurrences;
    while i < |occurrences|
      invariant 0 <= i <= |occurrences|
      invariant out + Entries(parent, excMap, occurrences[i..]) == results + Entries(parent, excMap, occurrences)
    {
      var occ := occurrences[i];
      EntriesStep(parent, excMap, occurrences, i);
      ghost var before := out;
      var key := TimeKey(occ.start);
      if key in excMap {
        var exc := excMap[key];
        if !exc.cancelled {
          out := out + [ExpandedEvent(exc, true, parent.id, DateKey(occ.start))];
        }
      } else {
        var virtual := parent.(startTime := occ.start, endTime := occ.end);
        out := out + [ExpandedEvent(virtual, true, parent.id, DateKey(occ.start))];
      }
      assert out == before + Entry(parent, excMap, occ);
      i := i + 1;
      assert out + Entries(parent, excMap, occurrences[i..])
          == before + (Entry(parent, excMap, occ) + Entries(parent, excMap, occurrences[i..]));
    }
    assert occurrences[i..] == [];
    assert out + [] == out;
  }

  lemma ParentsStep(rows: seq<Event>, parents: seq<Event>, rangeStart: int, rangeEnd: int, i: nat)
    requires i < |parents| && AllReturn(parents, rangeEnd)
    ensures AllReturn(parents[i..], rangeEnd) && AllReturn(parents[i + 1..], rangeEnd)
            && RowReturns(parents[i], rangeEnd)
    ensures OfParents(rows, parents[i..], rangeStart, rangeEnd)
         == OfParent(rows, parents[i], rangeStart, rangeEnd) + OfParents(rows, parents[i + 1..], rangeStart, rangeEnd)
  {
    hide RowReturns, OfParent;
    assert parents[i] in parents;
    assert parents[i..][1..] == parents[i + 1..];
  }

  lemma MergedIs(rows: seq<Event>, rangeStart: int, rangeEnd: int)
    requires Viewable(rows, rangeEnd)
    ensures AllReturn(Where(rows, Recurring(rangeEnd)), rangeEnd)
    ensures Merged(rows, rangeStart, rangeEnd)
         == Singles(Where(rows, OneOff(rangeStart, rangeEnd)))
            + OfParents(rows, Where(rows, Recurring(rangeEnd)), rangeStart, rangeEnd)
  {
  }

  lemma NoParents(rows: seq<Event>, rangeStart: int, rangeEnd: int)
    ensures OfParents(rows, [], rangeStart, rangeEnd) == []
  {
  }

  method ExpandEventsForRange(store: EventTable, rangeStart: int, rangeEnd: int) returns (results: seq<ExpandedEvent>)
    requires Viewable(store.rows, rangeEnd)
    ensures multiset(results) == multiset(Merged(store.rows, rangeStart, rangeEnd))
    ensures SortedBy(results, ShownBefore)
  {
    hide RowReturns, OfParent, Recurring, OneOff, DateKey, StrictWeak, SortedBy;
    hide Where, Merged, OfParents;
    var nonRecurring := store.ListByDateRange(rangeStart, rangeEnd);
    var merged: seq<ExpandedEvent> := [];
    for j := 0 to |nonRecurring|
      invariant merged == Singles(nonRecurring)[..j]
    {
      merged := merged + [ExpandedEvent(nonRecurring[j], false, 0, DateKey(nonRecurring[j].startTime))];
    }
    var recurring := store.ListRecurring(rangeEnd);
    ghost var singles := Singles(nonRecurring);
    MergedIs(store.rows, rangeStart, rangeEnd);
    NoParents(store.rows, rangeStart, rangeEnd);
    var i := 0;
    assert recurring[0..] == recurring;
    while i < |recurring|
      invariant 0 <= i <= |recurring| && AllReturn(recurring[i..], rangeEnd)
      invariant merged + OfParents(store.rows, recurring[i..], rangeStart, rangeEnd)
             == Merged(store.rows, rangeStart, rangeEnd)
    {
      ParentsStep(store.rows, recurring, rangeStart, rangeEnd, i);
      var items := ExpandParent(store, recurring[i], rangeStart, rangeEnd);
      ghost var before := merged;
      merged := merged + items;
      i := i + 1;
      assert merged + OfParents(store.rows, recurring[i..], rangeStart, rangeEnd)
          == before + (items + OfParents(store.rows, recurring[i..], rangeStart, rangeEnd));
    }
    assert recurring[i..] == [];
    assert merged + [] == merged;
    ShownBeforeIsOrder();
    results := SortSlice(merged, ShownBefore);
  }

  lemma ShownBeforeIsOrder()
    ensures StrictWeak(ShownBefore)
  {
  }

  lemma StartsBeforeIsOrder()
    ensures StrictWeak(StartsBefore)
  {
  }

  /** One turn of the outer loop: expand a parent, or skip it when its rule cannot be read. */
  method ExpandParent(store: EventTable, parent: Event, rangeStart: int, rangeEnd: int)
    returns (items: seq<ExpandedEvent>)
    requires RowReturns(parent, rangeEnd)
    ensures items == OfParent(store.rows, parent, rangeStart, rangeEnd)
  {
    hide Parsed, Answer, Returns, ExceptionOf, Where, Entries, ExcMap, WellFormed;
    var rule := Parse(parent.recurrenceRule);
    if rule.Err? {
      NoEntries(parent, ExcMap(Where(store.rows, ExceptionOf(parent.id))));
      return [];
    }
    var occurrences := Expand(rule.value, parent.startTime, parent.endTime, rangeStart, rangeEnd);
    var exceptions := store.ListExceptions(parent.id);
    var excMap := BuildExcMap(exceptions);
    items := AppendEntries([], parent, excMap, occurrences);
    assert [] + Entries(parent, excMap, occurrences) == Entries(parent, excMap, occurrences);
  }

  /** CalendarEventHandler.List: the same merge on bare events, sorted by start alone. */
  method List(store: EventTable, start: int, end: int) returns (events: seq<Event>)
    requires Viewable(store.rows, end)
    ensures multiset(events) == multiset(Events(Merged(store.rows, start, end)))
    ensures SortedBy(events, StartsBefore)
  {
    hide RowReturns, OfParent, Recurring, OneOff, DateKey, StrictWeak, SortedBy, Events, Singles;
    hide Where, Merged, OfParents;
    var merged := store.ListByDateRange(start, end);
    ghost var whole := Merged(store.rows, start, end);
    ghost var done := Singles(merged);
    EventsOfSingles(merged);
    var recurring := store.ListRecurring(end);
    MergedIs(store.rows, start, end);
    NoParents(store.rows, start, end);
    var i := 0;
    assert recurring[0..] == recurring;
    while i < |recurring|
      invariant 0 <= i <= |recurring| && AllReturn(recurring[i..], end)
      invariant done + OfParents(store.rows, recurring[i..], start, end) == whole
      invariant merged == Events(done)
    {
      ParentsStep(store.rows, recurring, start, end, i);
      ghost var before := done;
      ghost var items := OfParent(store.rows, recurring[i], start, end);
      merged := AppendParentEvents(merged, store, recurring[i], start, end);
      EventsAppend(before, items);
      done := done + items;
      i := i + 1;
      assert done + OfParents(store.rows, recurring[i..], start, end)
          == before + (items + OfParents(store.rows, recurring[i..], start, end));
    }
    assert recurring[i..] == [];
    assert done + [] == done;
    StartsBeforeIsOrder();
    events := SortSlice(merged, StartsBefore);
  }

  method AppendParentEvents(events: seq<Event>, store: EventTable, parent: Event, start: int, end: int)
    returns (out: seq<Event>)
    requires RowReturns(parent, end)
    ensures out == events + Events(OfParent(store.rows, parent, start, end))
  {
    hide Parsed, Answer, Returns, ExceptionOf, Where, Entries, ExcMap, WellFormed;
    var rule := Parse(parent.recurrenceRule);
    if rule.Err? {
      NoEntries(parent, ExcMap(Where(store.rows, ExceptionOf(parent.id))));
      assert events + [] == events;
      return events;
    }
    var occurrences := Expand(rule.value, parent.startTime, parent.endTime, start, end);
    var exceptions := store.ListExceptions(parent.id);
    var excMap := BuildExcMap(exceptions);
    out := AppendShown(events, parent, excMap, occurrences);
  }

  /** The inner loop of CalendarEventHandler.List. */
  method AppendShown(events: seq<Event>, parent: Event, excMap: map<string, Event>, occurrences: seq<Occurrence>)
    returns (out: seq<Event>)
    ensures out == events + Events(Entries(parent, excMap, occurrences))
  {
    hide TimeKey, DateKey;
    out := events;
    var i := 0;
    assert occurrences[0..] == occurrences;
    while i < |occurrences|
      invariant 0 <= i <= |occurrences|
      invariant out + Events(Entries(parent, excMap, occurrences[i..]))
             == events + Events(Entries(parent, excMap, occurrences))
    {
      var occ := occurrences[i];
      ghost var before := out;
      var key := TimeKey(occ.start);
      if key in excMap {
        var exc := excMap[key];
        if !exc.cancelled {
          out := out + [exc];
        }
      } else {
        out := out + [parent.(startTime := occ.start, endTime := occ.end)];
      }
      assert out == before + Shown(parent, excMap, occ);
      ShownStep(before, parent, excMap, occurrences, i);
      i := i + 1;
    }
    assert occurrences[i..] == [];
    assert out + [] == out;
  }

  lemma ShownStep(before: seq<Event>, parent: Event, exc: map<string, Event>, os: seq<Occurrence>, i: nat)
    requires i < |os|
    ensures before + Shown(parent, exc, os[i]) + Events(Entries(parent, exc, os[i + 1..]))
         == before + Events(Entries(parent, exc, os[i..]))
  {
    hide TimeKey, DateKey, Shown;
    EntriesStep(parent, exc, os, i);
    var entry, rest := Entry(parent, exc, os[i]), Entries(parent, exc, os[i + 1..]);
    assert Events(entry) == Shown(parent, exc, os[i]);
    EventsAppend(entry, rest);
  }
}
