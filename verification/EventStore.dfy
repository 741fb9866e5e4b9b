/** The calendar_events table and the queries on it. */
module EventStore {
  import opened Wrappers

  datatype Event = Event(
    id: int,
    title: string,
    description: string,
    startTime: int,
    endTime: int,
    allDay: bool,
    familyMemberId: Option<int>,
    location: string,
    recurrenceRule: string,             // empty for a one-off event and for an exception
    recurrenceParentId: Option<int>,    // set on exceptions
    originalStartTime: Option<int>,     // the occurrence an exception stands for
    cancelled: bool,
    reminderMinutes: Option<int>
  )

  /** The rows a WHERE clause selects, in table order. */
  function Where(rows: seq<Event>, p: Event -> bool): seq<Event> {
    if rows == [] then []
    else (if p(rows[0]) then [rows[0]] else []) + Where(rows[1..], p)
  }

  lemma {:induction false} WhereAppend(a: seq<Event>, b: seq<Event>, p: Event -> bool)
    ensures Where(a + b, p) == Where(a, p) + Where(b, p)
  {
    if a == [] {
      assert a + b == b;
    } else {
      assert (a + b)[1..] == a[1..] + b;
      WhereAppend(a[1..], b, p);
      var first := if p(a[0]) then [a[0]] else [];
      assert first + (Where(a[1..], p) + Where(b, p)) == first + Where(a[1..], p) + Where(b, p);
    }
  }

  lemma WhereNothing(rows: seq<Event>, p: Event -> bool)
    requires rows == []
    ensures Where(rows, p) == []
  {
  }

  /** What one more row adds. */
  lemma WhereStep(rows: seq<Event>, p: Event -> bool, i: nat)
    requires i < |rows|
    ensures Where(rows[..i + 1], p) == if p(rows[i]) then Where(rows[..i], p) + [rows[i]] else Where(rows[..i], p)
  {
    hide Where;
    assert rows[..i + 1] == rows[..i] + [rows[i]];
    WhereAppend(rows[..i], [rows[i]], p);
    WhereOne(rows[i], p);
    assert Where(rows[..i], p) + [] == Where(rows[..i], p);
  }

  lemma WhereOne(e: Event, p: Event -> bool)
    ensures Where([e], p) == if p(e) then [e] else []
  {
    assert [e][1..] == [];
  }

  lemma {:induction false} InWhere(rows: seq<Event>, p: Event -> bool, e: Event)
    ensures e in Where(rows, p) <==> e in rows && p(e)
  {
    if rows != [] {
      InWhere(rows[1..], p, e);
      assert rows == [rows[0]] + rows[1..];
    }
  }

  function OneOff(rangeStart: int, rangeEnd: int): Event -> bool {
    (e: Event) => e.startTime < rangeEnd && e.endTime > rangeStart
                  && e.recurrenceRule == "" && e.recurrenceParentId.None?
  }

  function Recurring(before: int): Event -> bool {
    (e: Event) => e.recurrenceRule != "" && e.recurrenceParentId.None? && e.startTime < before
  }

  function ExceptionOf(parentId: int): Event -> bool {
    (e: Event) => e.recurrenceParentId == Some(parentId)
  }

  function NotExceptionOf(parentId: int): Event -> bool {
    (e: Event) => e.recurrenceParentId != Some(parentId)
  }

  /** A reminder instant in the half-open window. */
  function Upcoming(windowStart: int, windowEnd: int): Event -> bool {
    (e: Event) => e.reminderMinutes.Some? && !e.cancelled
                  && windowStart <= e.startTime - 60 * e.reminderMinutes.value < windowEnd
  }

  /** What the UPDATE of a row sets; the parent link, the exception columns and the reminder stay. */
  function Updated(e: Event, title: string, description: string, startTime: int, endTime: int, allDay: bool,
                   familyMemberId: Option<int>, location: string, recurrenceRule: string): Event {
    e.(title := title, description := description, startTime := startTime, endTime := endTime, allDay := allDay,
       familyMemberId := familyMemberId, location := location, recurrenceRule := recurrenceRule)
  }

  function UpdateWhere(rows: seq<Event>, id: int, f: Event -> Event): (out: seq<Event>)
    ensures |out| == |rows|
    ensures forall i :: 0 <= i < |rows| ==> out[i] == if rows[i].id == id then f(rows[i]) else rows[i]
  {
    seq(|rows|, i requires 0 <= i < |rows| => if rows[i].id == id then f(rows[i]) else rows[i])
  }

  /** The rows DELETE removes: the row itself and, where the foreign key is enforced, its exceptions. */
  function Surviving(id: int, cascades: bool): Event -> bool {
    (e: Event) => e.id != id && !(cascades && e.recurrenceParentId == Some(id))
  }

  ghost predicate DistinctIds(rows: seq<Event>) {
    forall i, j :: 0 <= i < j < |rows| ==> rows[i].id != rows[j].id
  }

  class EventTable {
    var rows: seq<Event>
    var nextId: int
    const cascades: bool

    /** Ids are distinct and below the next one to be given out. */
    ghost predicate Valid()
      reads this
    {
      DistinctIds(rows) && forall e :: e in rows ==> e.id < nextId
    }

    constructor (cascades: bool)
      ensures Valid() && rows == [] && this.cascades == cascades
    {
      rows, nextId := [], 1;
      this.cascades := cascades;
    }

    method Select(p: Event -> bool) returns (events: seq<Event>)
      ensures events == Where(rows, p)
    {
      hide Where;
      events := [];
      WhereNothing(rows[..0], p);
      for i := 0 to |rows|
        invariant events == Where(rows[..i], p)
      {
        WhereStep(rows, p, i);
        if p(rows[i]) {
          events := events + [rows[i]];
        }
      }
      assert rows[..|rows|] == rows;
    }

    method ListByDateRange(start: int, end: int) returns (events: seq<Event>)
      ensures events == Where(rows, OneOff(start, end))
      ensures forall e :: e in events <==>
                e in rows && e.recurrenceRule == "" && e.recurrenceParentId.None?
                && e.startTime < end && e.endTime > start
    {
      forall e ensures e in Where(rows, OneOff(start, end)) <==> e in rows && OneOff(start, end)(e) {
        InWhere(rows, OneOff(start, end), e);
      }
      events := Select(OneOff(start, end));
    }

    method ListRecurring(before: int) returns (events: seq<Event>)
      ensures events == Where(rows, Recurring(before))
      ensures forall e :: e in events <==>
                e in rows && e.recurrenceRule != "" && e.recurrenceParentId.None? && e.startTime < before
    {
      forall e ensures e in Where(rows, Recurring(before)) <==> e in rows && Recurring(before)(e) {
        InWhere(rows, Recurring(before), e);
      }
      events := Select(Recurring(before));
    }

    method ListExceptions(parentId: int) returns (events: seq<Event>)
      ensures events == Where(rows, ExceptionOf(parentId))
      ensures forall e :: e in events <==>
                e in rows && e.recurrenceParentId.Some? && e.recurrenceParentId.value == parentId
    {
      forall e ensures e in Where(rows, ExceptionOf(parentId)) <==> e in rows && ExceptionOf(parentId)(e) {
        InWhere(rows, ExceptionOf(parentId), e);
      }
      events := Select(ExceptionOf(parentId));
    }

    method ListUpcomingWithReminders(windowStart: int, windowEnd: int) returns (events: seq<Event>)
      ensures events == Where(rows, Upcoming(windowStart, windowEnd))
      ensures forall e :: e in events <==>
                e in rows && e.reminderMinutes.Some? && !e.cancelled
                && windowStart <= e.startTime - 60 * e.reminderMinutes.value < windowEnd
    {
      forall e
        ensures e in Where(rows, Upcoming(windowStart, windowEnd)) <==> e in rows && Upcoming(windowStart, windowEnd)(e)
      {
        InWhere(rows, Upcoming(windowStart, windowEnd), e);
      }
      events := Select(Upcoming(windowStart, windowEnd));
    }

    method GetById(id: int) returns (event: Option<Event>)
      ensures event.None? ==> forall e :: e in rows ==> e.id != id
      ensures event.Some? ==> event.value in rows && event.value.id == id
    {
      for i := 0 to |rows|
        invariant forall j :: 0 <= j < i ==> rows[j].id != id
      {
        if rows[i].id == id {
          return Some(rows[i]);
        }
      }
      return None;
    }

    method CreateException(parentId: int, originalStart: int, title: string, description: string, startTime: int,
                           endTime: int, allDay: bool, familyMemberId: Option<int>, location: string, cancelled: bool)
      returns (e: Event)
      requires Valid()
      modifies this
      ensures Valid() && rows == old(rows) + [e]
      ensures e == Event(old(nextId), title, description, startTime, endTime, allDay, familyMemberId, location, "",
                         Some(parentId), Some(originalStart), cancelled, None)
    {
      e := Event(nextId, title, description, startTime, endTime, allDay, familyMemberId, location, "",
                 Some(parentId), Some(originalStart), cancelled, None);
      rows := rows + [e];
      nextId := nextId + 1;
    }

    method DeleteExceptions(parentId: int)
      requires Valid()
      modifies this
      ensures Valid() && rows == Where(old(rows), NotExceptionOf(parentId))
      ensures forall e :: e in rows <==> e in old(rows) && e.recurrenceParentId != Some(parentId)
    {
      forall e ensures e in Where(rows, NotExceptionOf(parentId)) <==> e in rows && NotExceptionOf(parentId)(e) {
        InWhere(rows, NotExceptionOf(parentId), e);
      }
      WhereKeepsIds(rows, NotExceptionOf(parentId));
      rows := Select(NotExceptionOf(parentId));
    }

    method UpdateWithRecurrence(id: int, title: string, description: string, startTime: int, endTime: int, allDay: bool,
                                familyMemberId: Option<int>, location: string, recurrenceRule: string)
      requires Valid()
      modifies this
      ensures Valid()
      ensures rows == UpdateWhere(old(rows), id, (e: Event) =>
                Updated(e, title, description, startTime, endTime, allDay, familyMemberId, location, recurrenceRule))
      ensures |rows| == |old(rows)| && forall i :: 0 <= i < |rows| ==>
                if old(rows)[i].id != id then rows[i] == old(rows)[i]
                else rows[i] == old(rows)[i].(
                       title := title, description := description, startTime := startTime, endTime := endTime,
                       allDay := allDay, familyMemberId := familyMemberId, location := location,
                       recurrenceRule := recurrenceRule)
    {
      rows := UpdateWhere(rows, id, (e: Event) =>
                Updated(e, title, description, startTime, endTime, allDay, familyMemberId, location, recurrenceRule));
    }

    method Delete(id: int)
      requires Valid()
      modifies this
      ensures Valid() && rows == Where(old(rows), Surviving(id, cascades))
      ensures forall e :: e in rows <==>
                e in old(rows) && e.id != id && (cascades ==> e.recurrenceParentId != Some(id))
    {
      forall e ensures e in Where(rows, Surviving(id, cascades)) <==> e in rows && Surviving(id, cascades)(e) {
        InWhere(rows, Surviving(id, cascades), e);
      }
      WhereKeepsIds(rows, Surviving(id, cascades));
      rows := Select(Surviving(id, cascades));
    }
  }

  lemma {:induction false} WhereKeepsIds(rows: seq<Event>, p: Event -> bool)
    requires DistinctIds(rows)
    ensures DistinctIds(Where(rows, p))
    ensures forall e :: e in Where(rows, p) ==> e in rows
  {
    forall e ensures e in Where(rows, p) ==> e in rows { InWhere(rows, p, e); }
    if rows != [] {
      WhereKeepsIds(rows[1..], p);
      var rest := Where(rows[1..], p);
      forall j | 0 <= j < |rest| ensures rest[j].id != rows[0].id {
        InWhere(rows[1..], p, rest[j]);
      }
    }
  }
}
