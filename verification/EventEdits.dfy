/** Editing and deleting one occurrence or a whole series, and the effect on the merged list. */
module EventEdits {
  import opened Wrappers
  import opened Calendar
  import opened Iteration
  import opened SequenceLaws
  import opened Expansion
  import opened WindowLaw
  import opened TimeKeys
  import opened EventStore
  import opened Merge
  import opened MergeLaws

  /** The fields of the edit form. */
  datatype Form = Form(title: string, description: string, startTime: int, endTime: int, allDay: bool,
                       familyMemberId: Option<int>, location: string, recurrenceRule: string)

  /** The original start an exception is filed under: the chosen date at the parent's hour and minute. */
  function OriginalStart(parent: Event, occurrenceDate: Option<int>): int {
    match occurrenceDate
    case None => parent.startTime
    case Some(od) => Date(Year(od), Month(od), Day(od), Hour(parent.startTime), Minute(parent.startTime), 0)
  }

  predicate InTable(rows: seq<Event>, id: int) {
    exists i :: 0 <= i < |rows| && rows[i].id == id
  }

  /** A row is an exception of a parent for an original start. */
  predicate FilesException(x: Event, parentId: int, at: int) {
    x.recurrenceParentId == Some(parentId) && x.originalStartTime == Some(at) && x.recurrenceRule == ""
  }

  /** The row that cancels one occurrence: the parent's data at the occurrence's time, as long as the parent lasts. */
  function Cancellation(parent: Event, id: int, at: int): (x: Event)
    ensures FilesException(x, parent.id, at)
    ensures x == parent.(id := id, startTime := at, endTime := at + parent.endTime - parent.startTime,
                         recurrenceRule := "", recurrenceParentId := Some(parent.id), originalStartTime := Some(at),
                         cancelled := true, reminderMinutes := None)
  {
    Event(id, parent.title, parent.description, at, at + (parent.endTime - parent.startTime), parent.allDay,
          parent.familyMemberId, parent.location, "", Some(parent.id), Some(at), true, None)
  }

  /** The row that replaces one occurrence by the form's data. */
  function Replacement(f: Form, parentId: int, id: int, at: int): (x: Event)
    ensures FilesException(x, parentId, at) && !x.cancelled && x.reminderMinutes.None? && x.id == id
    ensures x.title == f.title && x.description == f.description && x.location == f.location
    ensures x.startTime == f.startTime && x.endTime == f.endTime && x.allDay == f.allDay
    ensures x.familyMemberId == f.familyMemberId
  {
    Event(id, f.title, f.description, f.startTime, f.endTime, f.allDay, f.familyMemberId, f.location, "",
          Some(parentId), Some(at), false, None)
  }

  /**
    CalendarEventDeleteForm with mode=single; false is the 404 answer, given when the
    event of the URL or the parent named in the query is missing.
  */
  method DeleteSingle(table: EventTable, id: int, parentIdParam: int, occurrenceDate: Option<int>) returns (found: bool)
    requires table.Valid()
    modifies table
    ensures table.Valid()
    ensures var pid := if parentIdParam == 0 then id else parentIdParam;
            && found == (InTable(old(table.rows), id) && InTable(old(table.rows), pid))
            && (!found ==> table.rows == old(table.rows))
            && forall p :: found && p in old(table.rows) && p.id == pid ==>
                 table.rows == old(table.rows) + [Cancellation(p, old(table.nextId), OriginalStart(p, occurrenceDate))]
  {
    hide OriginalStart;
    var event := table.GetById(id);
    if event.None? {
      return false;
    }
    var parentId := parentIdParam;
    if parentId == 0 {
      parentId := id;
    }
    var parent := table.GetById(parentId);
    if parent.None? {
      return false;
    }
    var p := parent.value;
    var origStart := OriginalStart(p, occurrenceDate);
    UniqueId(table.rows, event.value);
    UniqueId(table.rows, p);
    var x := table.CreateException(parentId, origStart, p.title, p.description, origStart,
      origStart + (p.endTime - p.startTime), p.allDay, p.familyMemberId, p.location, true);
    return true;
  }

  /** CalendarEventUpdate with mode=single. */
  method UpdateSingle(table: EventTable, id: int, parentIdParam: int, occurrenceDate: Option<int>, f: Form)
    returns (found: bool)
    requires table.Valid()
    modifies table
    ensures table.Valid()
    ensures var pid := if parentIdParam == 0 then id else parentIdParam;
            && found == InTable(old(table.rows), pid)
            && (!found ==> table.rows == old(table.rows))
            && forall p :: p in old(table.rows) && p.id == pid ==>
                 table.rows == old(table.rows)
                               + [Replacement(f, pid, old(table.nextId), OriginalStart(p, occurrenceDate))]
  {
    hide OriginalStart;
    var parentId := parentIdParam;
    if parentId == 0 {
      parentId := id;
    }
    var parent := table.GetById(parentId);
    if parent.None? {
      return false;
    }
    var origStart := OriginalStart(parent.value, occurrenceDate);
    UniqueId(table.rows, parent.value);
    var x := table.CreateException(parentId, origStart, f.title, f.description, f.startTime, f.endTime, f.allDay,
      f.familyMemberId, f.location, false);
    return true;
  }

  lemma UniqueId(rows: seq<Event>, p: Event)
    requires DistinctIds(rows) && p in rows
    ensures InTable(rows, p.id) && forall q :: q in rows && q.id == p.id ==> q == p
  {
  }

  /** The new columns of a series. */
  function Apply(f: Form): Event -> Event {
    (e: Event) => Updated(e, f.title, f.description, f.startTime, f.endTime, f.allDay,
                          f.familyMemberId, f.location, f.recurrenceRule)
  }

  /** CalendarEventUpdate with mode=all. */
  method UpdateAll(table: EventTable, id: int, parentIdParam: int, f: Form)
    requires table.Valid()
    modifies table
    ensures table.Valid()
    ensures var pid := if parentIdParam == 0 then id else parentIdParam;
            table.rows == UpdateWhere(Where(old(table.rows), NotExceptionOf(pid)), pid, Apply(f))
  {
    var parentId := parentIdParam;
    if parentId == 0 {
      parentId := id;
    }
    table.DeleteExceptions(parentId);
    table.UpdateWithRecurrence(parentId, f.title, f.description, f.startTime, f.endTime, f.allDay,
      f.familyMemberId, f.location, f.recurrenceRule);
  }

  /** CalendarEventDeleteForm with mode=all; false is the 404 answer for a missing event of the URL. */
  method DeleteAll(table: EventTable, id: int, parentIdParam: int) returns (found: bool)
    requires table.Valid()
    modifies table
    ensures table.Valid() && found == InTable(old(table.rows), id)
    ensures var pid := if parentIdParam == 0 then id else parentIdParam;
            table.rows == if found then Where(old(table.rows), Surviving(pid, table.cascades)) else old(table.rows)
    ensures var pid := if parentIdParam == 0 then id else parentIdParam;
            found ==> forall e :: e in table.rows <==>
              e in old(table.rows) && e.id != pid && (table.cascades ==> e.recurrenceParentId != Some(pid))
  {
    var event := table.GetById(id);
    if event.None? {
      return false;
    }
    UniqueId(table.rows, event.value);
    var parentId := parentIdParam;
    if parentId == 0 {
      parentId := id;
    }
    table.Delete(parentId);
    return true;
  }

  // ----- mode=single: exactly one occurrence changes -----

  /** A merged list with the entries of one occurrence replaced. */
  function Substitute(s: seq<ExpandedEvent>, pid: int, date: string, new_: seq<ExpandedEvent>): seq<ExpandedEvent> {
    if s == [] then []
    else (if IsFor(s[0], pid, date) then new_ else [s[0]]) + Substitute(s[1..], pid, date, new_)
  }

  lemma {:induction false} SubstituteAppend(a: seq<ExpandedEvent>, b: seq<ExpandedEvent>, pid: int, date: string,
                                            n: seq<ExpandedEvent>)
    ensures Substitute(a + b, pid, date, n) == Substitute(a, pid, date, n) + Substitute(b, pid, date, n)
  {
    hide IsFor;
    if a == [] {
      assert a + b == b;
    } else {
      assert (a + b)[1..] == a[1..] + b;
      SubstituteAppend(a[1..], b, pid, date, n);
      var first := if IsFor(a[0], pid, date) then n else [a[0]];
      assert first + (Substitute(a[1..], pid, date, n) + Substitute(b, pid, date, n))
          == first + Substitute(a[1..], pid, date, n) + Substitute(b, pid, date, n);
    }
  }

  lemma {:induction false} SubstituteNone(s: seq<ExpandedEvent>, pid: int, date: string, n: seq<ExpandedEvent>)
    requires forall x :: x in s ==> !IsFor(x, pid, date)
    ensures Substitute(s, pid, date, n) == s
  {
    if s != [] {
      assert s[0] in s;
      SubstituteNone(s[1..], pid, date, n);
    }
  }

  /** What the new exception shows in place of the occurrence. */
  function NewEntry(p: Event, x: Event, at: int): seq<ExpandedEvent> {
    if x.cancelled then [] else [ExpandedEvent(x, true, p.id, DateKey(at))]
  }

  lemma ExcMapAdd(excs: seq<Event>, x: Event)
    requires x.originalStartTime.Some?
    ensures ExcMap(excs + [x]) == ExcMap(excs)[TimeKey(x.originalStartTime.value) := x]
  {
    hide TimeKey;
    assert (excs + [x])[..|excs|] == excs;
  }

  /** Hour and minute of the parent on another date: the occurrence itself iff the parent starts on a whole minute. */
  lemma OriginalStartIs(p: Event, od: int)
    ensures OriginalStart(p, Some(od)) == DayNumber(od) * DAY + TimeOfDay(p.startTime) - Second(p.startTime)
    ensures DayNumber(OriginalStart(p, Some(od))) == DayNumber(od)
  {
    hide MonthOf, DayOf, MonthStart, Hour, Minute, Second;
    DateOfDay(od, 0, Hour(p.startTime), Minute(p.startTime), 0);
    ClockRoundTrip(p.startTime);
    ShiftDays(TimeOfDay(p.startTime) - Second(p.startTime), DayNumber(od));
  }

  /** An occurrence of the parent is the chosen one iff it lies on that day and the parent starts on a whole minute. */
  lemma ChosenOccurrence(p: Event, od: int, t: int)
    requires TimeOfDay(t) == TimeOfDay(p.startTime)
    ensures t == OriginalStart(p, Some(od)) <==> DayNumber(t) == DayNumber(od) && Second(p.startTime) == 0
  {
    hide OriginalStart;
    OriginalStartIs(p, od);
  }

  /** Every occurrence of a series starts at its time of day; an instant at another one names none. */
  predicate Names(p: Event, at: int) {
    TimeOfDay(at) == TimeOfDay(p.startTime)
  }

  lemma EntryWithNew(p: Event, exc: map<string, Event>, x: Event, at: int, o: Occurrence)
    requires x.originalStartTime == Some(at) && TimeKey(at) !in exc && Names(p, o.start)
    ensures Entry(p, exc[TimeKey(at) := x], o)
         == if Names(p, at) then Substitute(Entry(p, exc, o), p.id, DateKey(at), NewEntry(p, x, at))
            else Entry(p, exc, o)
  {
    hide TimeKey, DateKey, DayNumber, TimeOfDay;
    DateKeyIff(o.start, at);
    if Names(p, at) { SameDaySameTime(o.start, at); }
    if TimeKey(o.start) == TimeKey(at) { TimeKeyInjective(o.start, at); }
    var old_, n := Entry(p, exc, o), NewEntry(p, x, at);
    if |old_| == 1 {
      assert old_[1..] == [];
      assert Substitute(old_, p.id, DateKey(at), n) == (if IsFor(old_[0], p.id, DateKey(at)) then n else [old_[0]]);
    }
  }

  lemma {:induction false} EntriesWithNew(p: Event, exc: map<string, Event>, x: Event, at: int, os: seq<Occurrence>)
    requires x.originalStartTime == Some(at) && TimeKey(at) !in exc
    requires forall o :: o in os ==> Names(p, o.start)
    ensures Entries(p, exc[TimeKey(at) := x], os)
         == if Names(p, at) then Substitute(Entries(p, exc, os), p.id, DateKey(at), NewEntry(p, x, at))
            else Entries(p, exc, os)
  {
    hide TimeKey, DateKey, Names, Entry, NewEntry;
    if os != [] {
      assert os[0] in os;
      EntryWithNew(p, exc, x, at, os[0]);
      EntriesWithNew(p, exc, x, at, os[1..]);
      SubstituteAppend(Entry(p, exc, os[0]), Entries(p, exc, os[1..]), p.id, DateKey(at), NewEntry(p, x, at));
    }
  }

  lemma WhereAddOne(rows: seq<Event>, x: Event, f: Event -> bool)
    ensures Where(rows + [x], f) == Where(rows, f) + (if f(x) then [x] else [])
  {
    WhereAppend(rows, [x], f);
    assert [x][1..] == [];
  }

  /** No exception of the parent is filed for an instant yet. */
  predicate NotFiled(rows: seq<Event>, pid: int, at: int) {
    forall e :: e in rows && e.recurrenceParentId == Some(pid) ==> e.originalStartTime != Some(at)
  }

  /** The parent's own entries after the exception was filed. */
  lemma ParentWithNew(rows: seq<Event>, p: Event, x: Event, at: int, a: int, b: int)
    requires RowReturns(p, b) && FilesException(x, p.id, at) && NotFiled(rows, p.id, at)
    ensures OfParent(rows + [x], p, a, b)
         == if Names(p, at) then Substitute(OfParent(rows, p, a, b), p.id, DateKey(at), NewEntry(p, x, at))
            else OfParent(rows, p, a, b)
  {
    hide TimeKey, DateKey, TimeOfDay, Entries, OccurrencesOf, RowReturns, NewEntry, ExcMap, Where;
    var excs := Where(rows, ExceptionOf(p.id));
    forall e | e in excs ensures e.originalStartTime != Some(at) { InWhere(rows, ExceptionOf(p.id), e); }
    LookupNone(excs, at);
    WhereAddOne(rows, x, ExceptionOf(p.id));
    ExcMapAdd(excs, x);
    forall o | o in OccurrencesOf(p, a, b) ensures Names(p, o.start) { OccurrencesInside(p, a, b, o); }
    EntriesWithNew(p, ExcMap(excs), x, at, OccurrencesOf(p, a, b));
  }

  /** Another parent's entries are untouched. */
  lemma OtherParentWithNew(rows: seq<Event>, q: Event, x: Event, pid: int, date: string, n: seq<ExpandedEvent>,
                           a: int, b: int)
    requires RowReturns(q, b) && q.id != pid && x.recurrenceParentId == Some(pid)
    ensures OfParent(rows + [x], q, a, b) == OfParent(rows, q, a, b)
    ensures Substitute(OfParent(rows, q, a, b), pid, date, n) == OfParent(rows, q, a, b)
  {
    hide OccurrencesOf, RowReturns, ExcMap, Where;
    var exc, os := ExcMap(Where(rows, ExceptionOf(q.id))), OccurrencesOf(q, a, b);
    WhereAddOne(rows, x, ExceptionOf(q.id));
    assert Where(rows, ExceptionOf(q.id)) + [] == Where(rows, ExceptionOf(q.id));
    forall y | y in OfParent(rows, q, a, b) ensures !IsFor(y, pid, date) { EntriesBelong(q, exc, os, y); }
    SubstituteNone(OfParent(rows, q, a, b), pid, date, n);
  }

  lemma {:induction false} ParentsWithNew(rows: seq<Event>, ps: seq<Event>, p: Event, x: Event, at: int, a: int, b: int)
    requires AllReturn(ps, b) && forall q :: q in ps && q.id == p.id ==> q == p
    requires FilesException(x, p.id, at) && NotFiled(rows, p.id, at)
    ensures OfParents(rows + [x], ps, a, b)
         == if Names(p, at) then Substitute(OfParents(rows, ps, a, b), p.id, DateKey(at), NewEntry(p, x, at))
            else OfParents(rows, ps, a, b)
  {
    hide Names, NotFiled, DateKey, RowReturns, OfParent, NewEntry;
    if ps != [] {
      var q, n := ps[0], NewEntry(p, x, at);
      assert q in ps;
      ParentsWithNew(rows, ps[1..], p, x, at, a, b);
      SubstituteAppend(OfParent(rows, q, a, b), OfParents(rows, ps[1..], a, b), p.id, DateKey(at), n);
      if q.id == p.id {
        ParentWithNew(rows, p, x, at, a, b);
      } else {
        OtherParentWithNew(rows, q, x, p.id, DateKey(at), n, a, b);
      }
    }
  }

  /** Filing an exception changes the entry of the occurrence it names, if there is one, and nothing else. */
  lemma FiledExceptionChanges(rows: seq<Event>, p: Event, x: Event, at: int, a: int, b: int)
    requires DistinctIds(rows) && p in rows && p.recurrenceParentId.None? && Viewable(rows, b)
    requires FilesException(x, p.id, at) && NotFiled(rows, p.id, at)
    ensures Viewable(rows + [x], b)
    ensures Merged(rows + [x], a, b)
         == if Names(p, at) then Substitute(Merged(rows, a, b), p.id, DateKey(at), NewEntry(p, x, at))
            else Merged(rows, a, b)
  {
    hide Names, NotFiled, DateKey, RowReturns, OfParents, NewEntry, Where, Singles;
    var ones, ps := Where(rows, OneOff(a, b)), Where(rows, Recurring(b));
    WhereAddOne(rows, x, OneOff(a, b));
    WhereAddOne(rows, x, Recurring(b));
    assert ones + [] == ones && ps + [] == ps;
    forall q | q in ps && q.id == p.id ensures q == p {
      InWhere(rows, Recurring(b), q);
      UniqueId(rows, p);
    }
    ParentsWithNew(rows, ps, p, x, at, a, b);
    var n := NewEntry(p, x, at);
    SubstituteAppend(Singles(ones), OfParents(rows, ps, a, b), p.id, DateKey(at), n);
    SinglesUntouched(ones, p.id, DateKey(at), n);
  }

  /** The date whose occurrence the form means: the one chosen, or the series' own start. */
  function ChosenDate(p: Event, occurrenceDate: Option<int>): int {
    match occurrenceDate
    case None => p.startTime
    case Some(od) => od
  }

  /**
    Filing an exception for one date of a series, when none is filed there yet:
    re-expanding any window gives the old list with exactly that occurrence
    replaced (removed, if the exception is cancelled) and everything else as it
    was, provided the series starts on a whole minute or no date was given. If
    neither holds, the exception is filed under an instant that is no occurrence
    and nothing changes.
  */
  lemma OneOccurrenceChanges(rows: seq<Event>, p: Event, x: Event, occurrenceDate: Option<int>, a: int, b: int)
    requires DistinctIds(rows) && p in rows && p.recurrenceParentId.None? && Viewable(rows, b)
    requires FilesException(x, p.id, OriginalStart(p, occurrenceDate))
    requires NotFiled(rows, p.id, OriginalStart(p, occurrenceDate))
    ensures Viewable(rows + [x], b)
    ensures var date := ChosenDate(p, occurrenceDate);
            Merged(rows + [x], a, b)
            == if occurrenceDate.None? || Second(p.startTime) == 0
               then Substitute(Merged(rows, a, b), p.id, DateKey(date), NewEntry(p, x, date))
               else Merged(rows, a, b)
  {
    hide DateKey, Second, TimeOfDay, Merged, Viewable, NotFiled, Substitute, DayNumber;
    var at := OriginalStart(p, occurrenceDate);
    FiledExceptionChanges(rows, p, x, at, a, b);
    if occurrenceDate.Some? {
      hide OriginalStart;
      OriginalStartIs(p, occurrenceDate.value);
      NamesIff(p, occurrenceDate.value);
      DateKeyIff(at, occurrenceDate.value);
    }
  }

  lemma NamesIff(p: Event, od: int)
    ensures Names(p, OriginalStart(p, Some(od))) <==> Second(p.startTime) == 0
  {
    hide OriginalStart, Second;
    OriginalStartIs(p, od);
    SecondBound(p.startTime);
    ShiftDays(TimeOfDay(p.startTime) - Second(p.startTime), DayNumber(od));
  }

  lemma SecondBound(t: int)
    ensures 0 <= TimeOfDay(t) - Second(t) < DAY
  {
    ClockRoundTrip(t);
  }

  /**
    With no date given the filed instant is the series' start, which need not be an
    occurrence: a weekly rule whose BYDAY leaves out the start's weekday has none
    there, and then nothing changes either.
  */
  lemma UndatedMayMiss(rows: seq<Event>, p: Event, x: Event, a: int, b: int)
    requires DistinctIds(rows) && p in rows && p.recurrenceParentId.None? && Viewable(rows, b)
    requires FilesException(x, p.id, p.startTime) && NotFiled(rows, p.id, p.startTime)
    requires RuleOf(p).Some? && !StartsOnRule(RuleOf(p).value, p.startTime)
    ensures Viewable(rows + [x], b) && Merged(rows + [x], a, b) == Merged(rows, a, b)
  {
    hide DateKey, Merged, Viewable, NotFiled, RuleOf, StartsOnRule;
    FiledExceptionChanges(rows, p, x, p.startTime, a, b);
    forall y | y in Merged(rows, a, b) ensures !IsFor(y, p.id, DateKey(p.startTime)) {
      if IsFor(y, p.id, DateKey(p.startTime)) { StartIsListed(rows, p, a, b, y); }
    }
    SubstituteNone(Merged(rows, a, b), p.id, DateKey(p.startTime), NewEntry(p, x, p.startTime));
  }

  lemma ListedForDate(rows: seq<Event>, p: Event, a: int, b: int, y: ExpandedEvent, date: string)
    requires DistinctIds(rows) && p in rows && Viewable(rows, b)
    requires y in Merged(rows, a, b) && IsFor(y, p.id, date)
    ensures RowReturns(p, b) && exists o :: o in OccurrencesOf(p, a, b) && DateKey(o.start) == date
  {
    hide DateKey, Merged, Viewable, RowReturns, OccurrencesOf, Shown, ExcMap, Where;
    NothingInvented(rows, a, b, y);
    var q, o :| q in rows && q.recurrenceRule != "" && q.recurrenceParentId.None? && q.startTime < b
                && RowReturns(q, b) && o in OccurrencesOf(q, a, b)
                && [y] == Entry(q, ExcMap(Where(rows, ExceptionOf(q.id))), o);
    EntryIsFor(q, ExcMap(Where(rows, ExceptionOf(q.id))), o, y);
    assert q == p;
  }

  lemma EntryIsFor(q: Event, exc: map<string, Event>, o: Occurrence, y: ExpandedEvent)
    requires [y] == Entry(q, exc, o)
    ensures IsFor(y, q.id, DateKey(o.start))
  {
    hide DateKey, Shown;
    assert [y][0] == y;
  }

  lemma StartIsListed(rows: seq<Event>, p: Event, a: int, b: int, y: ExpandedEvent)
    requires DistinctIds(rows) && p in rows && Viewable(rows, b) && RuleOf(p).Some?
    requires y in Merged(rows, a, b) && IsFor(y, p.id, DateKey(p.startTime))
    ensures StartsOnRule(RuleOf(p).value, p.startTime)
  {
    hide DateKey, Merged, Viewable, RuleOf, StartsOnRule, RowReturns, OccurrencesOf, DayNumber, TimeOfDay, IsFor, Occ;
    ListedForDate(rows, p, a, b, y, DateKey(p.startTime));
    var o :| o in OccurrencesOf(p, a, b) && DateKey(o.start) == DateKey(p.startTime);
    DateKeyIff(o.start, p.startTime);
    OccurrencesInside(p, a, b, o);
    SameDaySameTime(o.start, p.startTime);
    OccurrencesOccur(p, a, b, o);
    StartsOnRuleIff(RuleOf(p).value, p.startTime);
  }

  lemma OccurrencesOccur(p: Event, a: int, b: int, o: Occurrence)
    requires RowReturns(p, b) && o in OccurrencesOf(p, a, b)
    ensures RuleOf(p).Some? && exists k: nat :: Occ(RuleOf(p).value, p.startTime, k) == Some(o.start)
  {
    hide RuleOf, Run, Occ;
    RunWindowFree(RuleOf(p).value, p.startTime, p.endTime - p.startTime, a, b, 0);
    RunHolds(RuleOf(p).value, p.startTime, p.endTime - p.startTime, a, b, 0, 0, o);
  }

  lemma SinglesUntouched(events: seq<Event>, pid: int, date: string, n: seq<ExpandedEvent>)
    ensures Substitute(Singles(events), pid, date, n) == Singles(events)
  {
    hide DateKey;
    SubstituteNone(Singles(events), pid, date, n);
  }

  // ----- mode=all: one series changes -----

  /** The entries of one parent in a merged list. */
  function EntriesOf(s: seq<ExpandedEvent>, pid: int): seq<ExpandedEvent> {
    if s == [] then [] else (if s[0].isRecurring && s[0].parentId == pid then [s[0]] else []) + EntriesOf(s[1..], pid)
  }

  lemma {:induction false} EntriesOfAppend(a: seq<ExpandedEvent>, b: seq<ExpandedEvent>, pid: int)
    ensures EntriesOf(a + b, pid) == EntriesOf(a, pid) + EntriesOf(b, pid)
  {
    if a == [] {
      assert a + b == b;
    } else {
      assert (a + b)[1..] == a[1..] + b;
      EntriesOfAppend(a[1..], b, pid);
      var first := if a[0].isRecurring && a[0].parentId == pid then [a[0]] else [];
      assert first + (EntriesOf(a[1..], pid) + EntriesOf(b, pid)) == first + EntriesOf(a[1..], pid) + EntriesOf(b, pid);
    }
  }

  lemma {:induction false} EntriesOfNone(s: seq<ExpandedEvent>, pid: int)
    requires forall x :: x in s ==> !(x.isRecurring && x.parentId == pid)
    ensures EntriesOf(s, pid) == []
  {
    if s != [] {
      assert s[0] in s;
      EntriesOfNone(s[1..], pid);
    }
  }

  lemma {:induction false} EntriesOfAll(s: seq<ExpandedEvent>, pid: int)
    requires forall x :: x in s ==> x.isRecurring && x.parentId == pid
    ensures EntriesOf(s, pid) == s
  {
    if s != [] {
      assert s[0] in s;
      EntriesOfAll(s[1..], pid);
    }
  }

  lemma OneParent(rows: seq<Event>, q: Event, pid: int, a: int, b: int)
    requires RowReturns(q, b)
    ensures EntriesOf(OfParent(rows, q, a, b), pid) == if q.id == pid then OfParent(rows, q, a, b) else []
  {
    hide RowReturns, OccurrencesOf, ExcMap, Entries, EntriesOf;
    var exc, os, s := ExcMap(Where(rows, ExceptionOf(q.id))), OccurrencesOf(q, a, b), OfParent(rows, q, a, b);
    forall x | x in s ensures x.isRecurring && x.parentId == q.id { EntriesBelong(q, exc, os, x); }
    if q.id == pid { EntriesOfAll(s, pid); } else { EntriesOfNone(s, pid); }
  }

  lemma {:induction false} AmongParents(rows: seq<Event>, ps: seq<Event>, pid: int, a: int, b: int)
    requires AllReturn(ps, b) && DistinctIds(ps)
    ensures (forall q :: q in ps ==> q.id != pid) ==> EntriesOf(OfParents(rows, ps, a, b), pid) == []
    ensures forall q :: q in ps && q.id == pid ==>
              RowReturns(q, b) && EntriesOf(OfParents(rows, ps, a, b), pid) == OfParent(rows, q, a, b)
  {
    hide RowReturns, OfParent;
    if ps != [] {
      assert ps[0] in ps;
      EntriesOfAppend(OfParent(rows, ps[0], a, b), OfParents(rows, ps[1..], a, b), pid);
      OneParent(rows, ps[0], pid, a, b);
      AmongParents(rows, ps[1..], pid, a, b);
      assert ps == [ps[0]] + ps[1..];
    }
  }

  lemma SinglesHaveNone(events: seq<Event>, pid: int)
    ensures EntriesOf(Singles(events), pid) == []
  {
    hide DateKey;
    EntriesOfNone(Singles(events), pid);
  }

  /** The entries of a parent in the merged list of a table. */
  lemma MergedEntriesOf(rows: seq<Event>, pid: int, a: int, b: int)
    requires DistinctIds(rows) && Viewable(rows, b)
    ensures (forall q :: q in rows && Recurring(b)(q) ==> q.id != pid) ==> EntriesOf(Merged(rows, a, b), pid) == []
    ensures forall q :: q in rows && Recurring(b)(q) && q.id == pid ==>
              RowReturns(q, b) && EntriesOf(Merged(rows, a, b), pid) == OfParent(rows, q, a, b)
  {
    hide RowReturns, OfParent, OfParents, Recurring, OneOff, EntriesOf, Where, Singles;
    var ones, ps := Where(rows, OneOff(a, b)), Where(rows, Recurring(b));
    WhereKeepsIds(rows, Recurring(b));
    AmongParents(rows, ps, pid, a, b);
    SinglesHaveNone(ones, pid);
    EntriesOfAppend(Singles(ones), OfParents(rows, ps, a, b), pid);
    forall q ensures q in ps <==> q in rows && Recurring(b)(q) { InWhere(rows, Recurring(b), q); }
  }

  lemma {:induction false} WhereWhere(rows: seq<Event>, f: Event -> bool, g: Event -> bool)
    requires forall e :: e in rows && g(e) ==> f(e)
    ensures Where(Where(rows, f), g) == Where(rows, g)
  {
    if rows != [] {
      assert rows[0] in rows;
      WhereWhere(rows[1..], f, g);
      if f(rows[0]) {
        assert ([rows[0]] + Where(rows[1..], f))[1..] == Where(rows[1..], f);
      } else {
        assert [] + Where(rows[1..], f) == Where(rows[1..], f);
      }
    }
  }

  lemma {:induction false} WhereNone(rows: seq<Event>, f: Event -> bool)
    requires forall e :: e in rows ==> !f(e)
    ensures Where(rows, f) == []
  {
    if rows != [] {
      assert rows[0] in rows;
      WhereNone(rows[1..], f);
    }
  }

  lemma {:induction false} WhereUpdated(rows: seq<Event>, pid: int, f: Form, g: Event -> bool)
    requires forall e :: e in rows && e.id == pid ==> !g(e) && !g(Apply(f)(e))
    ensures Where(UpdateWhere(rows, pid, Apply(f)), g) == Where(rows, g)
  {
    hide Apply;
    if rows != [] {
      assert rows[0] in rows;
      WhereUpdated(rows[1..], pid, f, g);
      assert UpdateWhere(rows, pid, Apply(f))[1..] == UpdateWhere(rows[1..], pid, Apply(f));
    }
  }

  /** The table after mode=all update. */
  function AfterUpdateAll(rows: seq<Event>, pid: int, f: Form): seq<Event> {
    UpdateWhere(Where(rows, NotExceptionOf(pid)), pid, Apply(f))
  }

  lemma ExceptionsAfterUpdateAll(rows: seq<Event>, pid: int, f: Form, qid: int)
    requires forall e :: e in rows && e.id == pid ==> e.recurrenceParentId.None?
    ensures Where(AfterUpdateAll(rows, pid, f), ExceptionOf(qid))
         == if qid == pid then [] else Where(rows, ExceptionOf(qid))
  {
    var kept := Where(rows, NotExceptionOf(pid));
    forall e | e in kept && e.id == pid ensures e.recurrenceParentId.None? { InWhere(rows, NotExceptionOf(pid), e); }
    WhereUpdated(kept, pid, f, ExceptionOf(qid));
    if qid == pid {
      forall e | e in kept ensures !ExceptionOf(pid)(e) { InWhere(rows, NotExceptionOf(pid), e); }
      WhereNone(kept, ExceptionOf(pid));
    } else {
      WhereWhere(rows, NotExceptionOf(pid), ExceptionOf(qid));
    }
  }

  lemma RowsAfterUpdateAll(rows: seq<Event>, pid: int, f: Form)
    requires DistinctIds(rows) && forall e :: e in rows && e.id == pid ==> e.recurrenceParentId.None?
    ensures var after := AfterUpdateAll(rows, pid, f);
            && DistinctIds(after)
            && (forall e :: e in rows && e.id == pid ==> Apply(f)(e) in after)
            && (forall e: Event :: e.id != pid ==> (e in after <==> e in rows && NotExceptionOf(pid)(e)))
            && (forall e :: e in after && e.id == pid ==> exists d :: d in rows && d.id == pid && e == Apply(f)(d))
  {
    var kept, after := Where(rows, NotExceptionOf(pid)), AfterUpdateAll(rows, pid, f);
    WhereKeepsIds(rows, NotExceptionOf(pid));
    forall e ensures e in kept <==> e in rows && NotExceptionOf(pid)(e) { InWhere(rows, NotExceptionOf(pid), e); }
    forall e | e in kept ensures (if e.id == pid then Apply(f)(e) else e) in after {
      var i :| 0 <= i < |kept| && kept[i] == e;
      assert after[i] in after;
    }
  }

  /** The series' row with the form's data in every column the form has. */
  predicate EditedAs(q: Event, p: Event, f: Form) {
    && q.id == p.id && q.recurrenceParentId == p.recurrenceParentId && q.originalStartTime == p.originalStartTime
    && q.cancelled == p.cancelled && q.reminderMinutes == p.reminderMinutes
    && q.title == f.title && q.description == f.description && q.location == f.location
    && q.startTime == f.startTime && q.endTime == f.endTime && q.allDay == f.allDay
    && q.familyMemberId == f.familyMemberId && q.recurrenceRule == f.recurrenceRule
  }

  /** The rows after mode=all update, one by one: the series' exceptions are gone and its row is edited. */
  lemma EditedTable(rows: seq<Event>, p: Event, f: Form)
    requires DistinctIds(rows) && p in rows && p.recurrenceParentId.None?
    ensures forall e :: e in AfterUpdateAll(rows, p.id, f) <==>
              EditedAs(e, p, f) || (e in rows && e.id != p.id && e.recurrenceParentId != Some(p.id))
  {
    hide AfterUpdateAll;
    UniqueId(rows, p);
    RowsAfterUpdateAll(rows, p.id, f);
    assert EditedAs(Apply(f)(p), p, f);
  }

  /** After mode=all update the edited series shows only copies of the edited row; all other series are unchanged. */
  lemma UpdateAllChangesOneSeries(rows: seq<Event>, p: Event, f: Form, a: int, b: int)
    requires DistinctIds(rows) && p in rows && p.recurrenceParentId.None?
    requires Viewable(rows, b) && Viewable(AfterUpdateAll(rows, p.id, f), b)
    ensures forall qid :: qid != p.id ==>
              EntriesOf(Merged(AfterUpdateAll(rows, p.id, f), a, b), qid) == EntriesOf(Merged(rows, a, b), qid)
    ensures forall q :: EditedAs(q, p, f) ==>
              if f.recurrenceRule != "" && f.startTime < b
              then RowReturns(q, b) && EntriesOf(Merged(AfterUpdateAll(rows, p.id, f), a, b), p.id)
                                       == Entries(q, map[], OccurrencesOf(q, a, b))
              else EntriesOf(Merged(AfterUpdateAll(rows, p.id, f), a, b), p.id) == []
  {
    hide RowReturns, OccurrencesOf, Entries, Merged, Viewable, AfterUpdateAll, EntriesOf;
    var after, q := AfterUpdateAll(rows, p.id, f), Apply(f)(p);
    UniqueId(rows, p);
    RowsAfterUpdateAll(rows, p.id, f);
    ExceptionsAfterUpdateAll(rows, p.id, f, p.id);
    MergedEntriesOf(after, p.id, a, b);
    forall qid | qid != p.id
      ensures EntriesOf(Merged(after, a, b), qid) == EntriesOf(Merged(rows, a, b), qid)
    {
      MergedEntriesOf(after, qid, a, b);
      MergedEntriesOf(rows, qid, a, b);
      ExceptionsAfterUpdateAll(rows, p.id, f, qid);
      if r :| r in rows && Recurring(b)(r) && r.id == qid { assert r in after; }
    }
  }

  /** After mode=all delete the series is gone, whether or not the database cascades; all others are unchanged. */
  lemma DeleteAllRemovesOneSeries(rows: seq<Event>, p: Event, cascades: bool, a: int, b: int)
    requires DistinctIds(rows) && p in rows && p.recurrenceParentId.None? && Viewable(rows, b)
    ensures Viewable(Where(rows, Surviving(p.id, cascades)), b)
    ensures EntriesOf(Merged(Where(rows, Surviving(p.id, cascades)), a, b), p.id) == []
    ensures forall qid :: qid != p.id ==>
              EntriesOf(Merged(Where(rows, Surviving(p.id, cascades)), a, b), qid) == EntriesOf(Merged(rows, a, b), qid)
  {
    hide RowReturns, OccurrencesOf, Entries, Merged, EntriesOf;
    var keep := Surviving(p.id, cascades);
    var after := Where(rows, keep);
    UniqueId(rows, p);
    WhereKeepsIds(rows, keep);
    forall e ensures e in after <==> e in rows && keep(e) { InWhere(rows, keep, e); }
    forall e | e in Where(after, Recurring(b)) ensures RowReturns(e, b) {
      InWhere(after, Recurring(b), e);
      InWhere(rows, Recurring(b), e);
    }
    MergedEntriesOf(after, p.id, a, b);
    forall qid | qid != p.id
      ensures EntriesOf(Merged(after, a, b), qid) == EntriesOf(Merged(rows, a, b), qid)
    {
      MergedEntriesOf(after, qid, a, b);
      MergedEntriesOf(rows, qid, a, b);
      WhereWhere(rows, keep, ExceptionOf(qid));
      if r :| r in rows && Recurring(b)(r) && r.id == qid { assert r in after; }
    }
  }
}
