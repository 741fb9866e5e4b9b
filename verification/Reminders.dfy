/** The notification scheduler: reminder windows, the sent table and its cleanup. */
module Reminders {
  import opened Text
  import opened EventStore
  import opened TimeKeys
  import Calendar

  datatype Kind = CalendarReminder | ChoreDue

  /** The columns under which a notification is recorded once. */
  datatype Key = Key(household: int, kind: Kind, ref: string, lead: int)

  /** When each recorded notification was sent; the key is unique in the table. */
  type Sent = map<Key, int>

  const WEEK := 7 * 24 * 3600

  function Record(sent: Sent, key: Key, now: int): Sent {
    if key in sent then sent else sent[key := now]
  }

  function Cleaned(sent: Sent, before: int): Sent {
    map key | key in sent && !(sent[key] < before) :: sent[key]
  }

  class PushStore {
    var sent: Sent

    constructor ()
      ensures sent == map[]
    {
      sent := map[];
    }

    /** INSERT OR IGNORE. */
    method RecordSent(key: Key, now: int)
      modifies this
      ensures sent == Record(old(sent), key, now)
      ensures key in sent && sent[key] == if key in old(sent) then old(sent)[key] else now
      ensures forall k :: k != key ==> (k in sent <==> k in old(sent)) && (k in sent ==> sent[k] == old(sent)[k])
    {
      if key !in sent {
        sent := sent[key := now];
      }
    }

    method WasSent(key: Key) returns (was: bool)
      ensures was <==> key in sent
    {
      return key in sent;
    }

    method CleanupSent(before: int)
      modifies this
      ensures sent == Cleaned(old(sent), before)
      ensures forall k :: k in sent <==> k in old(sent) && old(sent)[k] >= before
      ensures forall k :: k in sent ==> sent[k] == old(sent)[k]
    {
      sent := map key | key in sent && !(sent[key] < before) :: sent[key];
    }
  }

  // ----- one check, on values -----

  /** A notification handed to the push service. */
  datatype Handled = Handled(key: Key, at: int)

  datatype State = State(sent: Sent, log: seq<Handled>)

  function IntText(n: int): string {
    if n < 0 then "-" + Digits(-n) else Digits(n)
  }

  function EventRef(id: int): string { "event-" + IntText(id) }

  function ReminderKey(household: int, e: Event): Key
    requires e.reminderMinutes.Some?
  {
    Key(household, CalendarReminder, EventRef(e.id), e.reminderMinutes.value)
  }

  function Notify(st: State, key: Key, now: int): State {
    if key in st.sent then st else State(st.sent[key := now], st.log + [Handled(key, now)])
  }

  function NotifyEvents(st: State, household: int, events: seq<Event>, now: int): State
    decreases |events|
  {
    if events == [] then st
    else NotifyEvents(
      if events[0].reminderMinutes.Some? then Notify(st, ReminderKey(household, events[0]), now) else st,
      household, events[1..], now)
  }

  function ChoreKey(household: int, now: int): Key {
    Key(household, ChoreDue, "chore-daily-" + DateKey(now), 0)
  }

  function NotifyChores(st: State, household: int, chores: nat, now: int): State {
    if Calendar.Minute(now) != 0 || chores == 0 then st else Notify(st, ChoreKey(household, now), now)
  }

  class Scheduler {
    const push: PushStore
    var log: seq<Handled>

    constructor (push: PushStore)
      ensures this.push == push && log == []
    {
      this.push, log := push, [];
    }

    function View(): State
      reads this, push
    {
      State(push.sent, log)
    }

    /** log stands for handing the payload to the subscribers. */
    method CheckCalendarReminders(household: int, now: int, events: EventTable)
      modifies this, push
      ensures View() == NotifyEvents(old(View()), household, Where(old(events.rows), Upcoming(now, now + 60)), now)
    {
      hide EventRef, Upcoming, Where;
      var windowEnd := now + 60;
      var upcoming := events.ListUpcomingWithReminders(now, windowEnd);
      var i := 0;
      assert upcoming[0..] == upcoming;
      while i < |upcoming|
        invariant 0 <= i <= |upcoming|
        invariant NotifyEvents(View(), household, upcoming[i..], now)
               == NotifyEvents(old(View()), household, upcoming, now)
      {
        assert upcoming[i..][0] == upcoming[i] && upcoming[i..][1..] == upcoming[i + 1..];
        var event := upcoming[i];
        i := i + 1;
        if event.reminderMinutes.None? {
          continue;
        }
        var key := Key(household, CalendarReminder, EventRef(event.id), event.reminderMinutes.value);
        var sent := push.WasSent(key);
        if sent {
          continue;
        }
        log := log + [Handled(key, now)];
        push.RecordSent(key, now);
      }
    }

    method CheckChoreDue(household: int, now: int, chores: nat)
      modifies this, push
      ensures View() == NotifyChores(old(View()), household, chores, now)
    {
      hide DateKey, Calendar.Minute;
      if Calendar.Minute(now) != 0 {
        return;
      }
      var key := Key(household, ChoreDue, "chore-daily-" + DateKey(now), 0);
      var sent := push.WasSent(key);
      if sent {
        return;
      }
      if chores == 0 {
        return;
      }
      log := log + [Handled(key, now)];
      push.RecordSent(key, now);
    }

    /**
      Each household is visited in turn; tables are what its query finds, which may
      change between visits, as may the chores and the clock.
    */
    method Tick(visits: seq<Visit>, tables: seq<EventTable>)
      requires |tables| == |visits| && forall i :: 0 <= i < |visits| ==> tables[i].rows == visits[i].rows
      modifies this, push
      ensures View() == Run(old(View()), TickSteps(visits))
    {
      hide Run, TickSteps, NotifyEvents, NotifyChores, Where, Upcoming;
      ghost var start := View();
      NoTick(start, visits[..0]);
      for i := 0 to |visits|
        invariant forall j :: 0 <= j < |visits| ==> tables[j].rows == visits[j].rows
        invariant View() == Run(start, TickSteps(visits[..i]))
      {
        ghost var before := View();
        CheckCalendarReminders(visits[i].household, visits[i].remindAt, tables[i]);
        CheckChoreDue(visits[i].household, visits[i].choresAt, visits[i].chores);
        TickOne(start, before, visits, i);
      }
      assert visits[..|visits|] == visits;
    }
  }

  // ----- runs -----

  datatype Step =
    | Reminders(household: int, now: int, rows: seq<Event>)
    | Chores(household: int, now: int, chores: nat)
    | Sweep(now: int)     // the hourly cleanup of rows older than seven days

  function Do(st: State, s: Step): State {
    match s
    case Reminders(h, now, rows) => NotifyEvents(st, h, Where(rows, Upcoming(now, now + 60)), now)
    case Chores(h, now, chores) => NotifyChores(st, h, chores, now)
    case Sweep(now) => st.(sent := Cleaned(st.sent, now - WEEK))
  }

  function Run(st: State, steps: seq<Step>): State
    decreases |steps|
  {
    if steps == [] then st else Run(Do(st, steps[0]), steps[1..])
  }

  /** What one household's two checks find: the clock at each, the event rows and the number of chores. */
  datatype Visit = Visit(household: int, remindAt: int, rows: seq<Event>, choresAt: int, chores: nat)

  function OneHousehold(v: Visit): seq<Step> {
    [Reminders(v.household, v.remindAt, v.rows), Chores(v.household, v.choresAt, v.chores)]
  }

  function TickSteps(visits: seq<Visit>): seq<Step> {
    if visits == [] then []
    else
      var n := |visits| - 1;
      TickSteps(visits[..n]) + OneHousehold(visits[n])
  }

  lemma TickStepsAppend(visits: seq<Visit>, i: nat)
    requires i < |visits|
    ensures TickSteps(visits[..i + 1]) == TickSteps(visits[..i]) + OneHousehold(visits[i])
  {
    assert visits[..i + 1][..i] == visits[..i];
  }

  lemma BothChecks(st: State, v: Visit)
    ensures Run(st, OneHousehold(v))
         == NotifyChores(NotifyEvents(st, v.household, Where(v.rows, Upcoming(v.remindAt, v.remindAt + 60)),
                                      v.remindAt),
                         v.household, v.chores, v.choresAt)
  {
    hide NotifyEvents, NotifyChores, Where;
    var steps := OneHousehold(v);
    assert steps[1..] == [Chores(v.household, v.choresAt, v.chores)];
    assert Run(Do(st, steps[0]), steps[1..]) == Do(Do(st, steps[0]), steps[1]);
  }

  lemma NoTick(st: State, visits: seq<Visit>)
    requires visits == []
    ensures Run(st, TickSteps(visits)) == st
  {
  }

  lemma TickOne(start: State, st: State, visits: seq<Visit>, i: nat)
    requires i < |visits| && st == Run(start, TickSteps(visits[..i]))
    ensures Run(start, TickSteps(visits[..i + 1]))
         == NotifyChores(NotifyEvents(st, visits[i].household,
                                      Where(visits[i].rows, Upcoming(visits[i].remindAt, visits[i].remindAt + 60)),
                                      visits[i].remindAt),
                         visits[i].household, visits[i].chores, visits[i].choresAt)
  {
    hide Run, TickSteps, NotifyEvents, NotifyChores, Where, Upcoming, OneHousehold;
    TickStepsAppend(visits, i);
    RunAppend(start, TickSteps(visits[..i]), OneHousehold(visits[i]));
    BothChecks(st, visits[i]);
  }

  lemma {:induction false} RunAppend(st: State, a: seq<Step>, b: seq<Step>)
    ensures Run(st, a + b) == Run(Run(st, a), b)
    decreases |a|
  {
    hide Do;
    if a == [] {
      assert a + b == b;
    } else {
      assert (a + b)[1..] == a[1..] + b;
      RunAppend(Do(st, a[0]), a[1..], b);
    }
  }

  // ----- exactly once -----

  /** How often a notification was handed out. */
  function Times(log: seq<Handled>, key: Key): nat {
    if log == [] then 0 else (if log[|log| - 1].key == key then 1 else 0) + Times(log[..|log| - 1], key)
  }

  lemma TimesAdd(log: seq<Handled>, x: Handled, key: Key)
    ensures Times(log + [x], key) == Times(log, key) + if x.key == key then 1 else 0
  {
    assert (log + [x])[..|log|] == log;
  }

  lemma IntTextInjective(a: int, b: int)
    requires IntText(a) == IntText(b)
    ensures a == b
  {
    hide Digits;
    assert a < 0 ==> IntText(a)[0] == '-' && IntText(a)[1..] == Digits(-a);
    assert b < 0 ==> IntText(b)[0] == '-' && IntText(b)[1..] == Digits(-b);
    assert a >= 0 ==> IsDigit(IntText(a)[0]);
    assert b >= 0 ==> IsDigit(IntText(b)[0]);
    DigitsInjective(if a < 0 then -a else a, if b < 0 then -b else b);
  }

  /** Reminders share a key only if household, event and lead time are the same. */
  lemma KeysDiffer(h: int, a: Event, k: int, b: Event)
    requires a.reminderMinutes.Some? && b.reminderMinutes.Some?
    ensures ReminderKey(h, a) == ReminderKey(k, b)
       <==> h == k && a.id == b.id && a.reminderMinutes.value == b.reminderMinutes.value
  {
    hide IntText;
    if EventRef(a.id) == EventRef(b.id) {
      assert IntText(a.id) == EventRef(a.id)[6..] && IntText(b.id) == EventRef(b.id)[6..];
      IntTextInjective(a.id, b.id);
    }
  }

  /** A notification of another key leaves this one's record and count alone. */
  lemma NotifyOther(st: State, other: Key, key: Key, now: int)
    requires other != key
    ensures var st' := Notify(st, other, now);
            (key in st'.sent <==> key in st.sent) && (key in st.sent ==> st'.sent[key] == st.sent[key])
            && Times(st'.log, key) == Times(st.log, key)
  {
    TimesAdd(st.log, Handled(other, now), key);
  }

  /** What a check does to one event's key, given whether the event is among those it looks at. */
  predicate Effect(st: State, st': State, key: Key, now: int, hit: bool) {
    if hit && key !in st.sent then
      key in st'.sent && st'.sent[key] == now && Times(st'.log, key) == Times(st.log, key) + 1
    else (key in st'.sent <==> key in st.sent) && (key in st.sent ==> st'.sent[key] == st.sent[key])
         && Times(st'.log, key) == Times(st.log, key)
  }

  lemma {:induction false} EventsEffect(st: State, h: int, events: seq<Event>, now: int, household: int, e: Event)
    requires e.reminderMinutes.Some? && forall d :: d in events && d.id == e.id ==> d == e
    ensures Effect(st, NotifyEvents(st, h, events, now), ReminderKey(household, e), now, h == household && e in events)
    decreases |events|
  {
    hide EventRef;
    var key := ReminderKey(household, e);
    if events != [] {
      var d := events[0];
      assert events == [d] + events[1..];
      var next := if d.reminderMinutes.Some? then Notify(st, ReminderKey(h, d), now) else st;
      EventsEffect(next, h, events[1..], now, household, e);
      if d.reminderMinutes.Some? && ReminderKey(h, d) != key {
        NotifyOther(st, ReminderKey(h, d), key, now);
      } else if d.reminderMinutes.Some? {
        TimesAdd(st.log, Handled(key, now), key);
      }
      if d.reminderMinutes.Some? && d.id != e.id { KeysDiffer(h, d, household, e); }
    }
  }

  function ReminderTime(e: Event): int
    requires e.reminderMinutes.Some?
  {
    e.startTime - 60 * e.reminderMinutes.value
  }

  /** The check looks at the event: its reminder time lies in the check's minute. */
  predicate Hits(s: Step, household: int, e: Event)
    requires e.reminderMinutes.Some?
  {
    s.Reminders? && s.household == household && s.now <= ReminderTime(e) < s.now + 60
  }

  /** The event stays as it is: every check of the household sees this very row under its id. */
  ghost predicate Unedited(steps: seq<Step>, e: Event) {
    forall i :: 0 <= i < |steps| && steps[i].Reminders? ==>
      e in steps[i].rows && forall d :: d in steps[i].rows && d.id == e.id ==> d == e
  }

  ghost predicate Monotone(steps: seq<Step>, from: int) {
    && (forall i :: 0 <= i < |steps| ==> from <= steps[i].now)
    && (forall i, j :: 0 <= i < j < |steps| ==> steps[i].now <= steps[j].now)
  }

  lemma ChoresEffect(st: State, h: int, chores: nat, now: int, household: int, e: Event)
    requires e.reminderMinutes.Some?
    ensures Effect(st, NotifyChores(st, h, chores, now), ReminderKey(household, e), now, false)
  {
    hide DateKey, Calendar.Minute, EventRef;
    NotifyOther(st, ChoreKey(h, now), ReminderKey(household, e), now);
  }

  /** What a step does to one key: a hit, nothing, or a cleanup that may drop a record older than a week. */
  predicate Matters(st: State, s: Step, key: Key, hit: bool) {
    if s.Sweep? then
      && Times(Do(st, s).log, key) == Times(st.log, key)
      && (key in Do(st, s).sent <==> key in st.sent && st.sent[key] >= s.now - 604800)
      && (key in Do(st, s).sent ==> Do(st, s).sent[key] == st.sent[key])
    else Effect(st, Do(st, s), key, s.now, hit)
  }

  /** One step, seen from one event's key. */
  lemma StepEffect(st: State, s: Step, household: int, e: Event)
    requires e.reminderMinutes.Some? && !e.cancelled && Unedited([s], e)
    ensures Matters(st, s, ReminderKey(household, e), Hits(s, household, e))
  {
    hide EventRef, Effect, NotifyChores;
    if s.Reminders? {
      var events := Where(s.rows, Upcoming(s.now, s.now + 60));
      assert [s][0] == s;
      InWhere(s.rows, Upcoming(s.now, s.now + 60), e);
      forall d | d in events && d.id == e.id ensures d == e { InWhere(s.rows, Upcoming(s.now, s.now + 60), d); }
      EventsEffect(st, s.household, events, s.now, household, e);
    } else if s.Chores? {
      ChoresEffect(st, s.household, s.chores, s.now, household, e);
    }
  }

  // ----- once at most, for any key whose hits fit into a week -----

  /** The steps that hit a key lie after lo and not after hi, at most a week apart, and nothing else handles it. */
  ghost predicate HitsWithin(steps: seq<Step>, key: Key, hits: Step -> bool, lo: int, hi: int) {
    && hi - lo <= WEEK
    && (forall i :: 0 <= i < |steps| && hits(steps[i]) ==> !steps[i].Sweep? && lo < steps[i].now <= hi)
    && (forall i, st :: 0 <= i < |steps| ==> Matters(st, steps[i], key, hits(steps[i])))
  }

  lemma HitsWithinTail(steps: seq<Step>, key: Key, hits: Step -> bool, lo: int, hi: int)
    requires steps != [] && HitsWithin(steps, key, hits, lo, hi)
    ensures HitsWithin(steps[1..], key, hits, lo, hi)
    ensures forall st :: Matters(st, steps[0], key, hits(steps[0]))
  {
    hide Matters;
  }

  /** Handled since lo and recorded, or the time for it is over. */
  predicate Settled(st: State, key: Key, lo: int, hi: int, now: int) {
    now > hi || (key in st.sent && st.sent[key] > lo)
  }

  /** Once settled it is not handled again, whatever sweeps come between. */
  lemma {:induction false} NeverAgain(st: State, steps: seq<Step>, key: Key, hits: Step -> bool, lo: int,
                                      hi: int, now: int)
    requires HitsWithin(steps, key, hits, lo, hi) && Monotone(steps, now) && Settled(st, key, lo, hi, now)
    ensures Times(Run(st, steps).log, key) == Times(st.log, key)
    decreases |steps|
  {
    hide Do, HitsWithin;
    if steps != [] {
      var s := steps[0];
      HitsWithinTail(steps, key, hits, lo, hi);
      assert Matters(st, s, key, hits(s));
      assert Monotone(steps[1..], s.now);
      HeadWithin(steps, key, hits, lo, hi);
      NeverAgain(Do(st, s), steps[1..], key, hits, lo, hi, s.now);
    }
  }

  lemma HeadWithin(steps: seq<Step>, key: Key, hits: Step -> bool, lo: int, hi: int)
    requires steps != [] && HitsWithin(steps, key, hits, lo, hi)
    ensures hits(steps[0]) ==> !steps[0].Sweep? && lo < steps[0].now <= hi
    ensures hi - lo <= WEEK
  {
    hide Matters;
  }

  ghost predicate SomeHit(steps: seq<Step>, hits: Step -> bool) {
    exists i :: 0 <= i < |steps| && hits(steps[i])
  }

  lemma SomeHitSplits(steps: seq<Step>, hits: Step -> bool)
    requires steps != []
    ensures SomeHit(steps, hits) <==> hits(steps[0]) || SomeHit(steps[1..], hits)
  {
    if SomeHit(steps, hits) {
      var i :| 0 <= i < |steps| && hits(steps[i]);
      if i > 0 { assert steps[1..][i - 1] == steps[i]; }
    }
    if SomeHit(steps[1..], hits) {
      var i :| 0 <= i < |steps[1..]| && hits(steps[1..][i]);
      assert steps[i + 1] == steps[1..][i];
    }
  }

  /** An unrecorded key is handled once if some step hits it, and not at all otherwise. */
  lemma {:induction false} OnceIffHit(st: State, steps: seq<Step>, key: Key, hits: Step -> bool, lo: int,
                                      hi: int, now: int)
    requires HitsWithin(steps, key, hits, lo, hi) && Monotone(steps, now) && key !in st.sent
    ensures Times(Run(st, steps).log, key) == Times(st.log, key) + if SomeHit(steps, hits) then 1 else 0
    decreases |steps|
  {
    hide Do, HitsWithin, SomeHit;
    if steps != [] {
      var s := steps[0];
      HitsWithinTail(steps, key, hits, lo, hi);
      assert Matters(st, s, key, hits(s));
      assert Monotone(steps[1..], s.now);
      HeadWithin(steps, key, hits, lo, hi);
      SomeHitSplits(steps, hits);
      if hits(s) {
        NeverAgain(Do(st, s), steps[1..], key, hits, lo, hi, s.now);
      } else {
        OnceIffHit(Do(st, s), steps[1..], key, hits, lo, hi, s.now);
      }
    } else {
      NoHits(hits);
    }
  }

  lemma NoHits(hits: Step -> bool)
    ensures !SomeHit([], hits)
  {
  }

  // ----- calendar reminders -----

  function EventHits(household: int, e: Event): Step -> bool
    requires e.reminderMinutes.Some?
  {
    (s: Step) => Hits(s, household, e)
  }

  lemma EventHitsWithin(steps: seq<Step>, household: int, e: Event)
    requires e.reminderMinutes.Some? && !e.cancelled && Unedited(steps, e)
    ensures HitsWithin(steps, ReminderKey(household, e), EventHits(household, e), ReminderTime(e) - 60, ReminderTime(e))
  {
    hide Matters, EventRef;
    forall i, st | 0 <= i < |steps|
      ensures Matters(st, steps[i], ReminderKey(household, e), EventHits(household, e)(steps[i]))
    {
      assert [steps[i]][0] == steps[i];
      StepEffect(st, steps[i], household, e);
    }
  }

  /**
    Over any run of checks, chore summaries and cleanups with a clock that never
    runs backwards, an unedited event not recorded before is handled once if some
    check of the household falls into its minute, and not at all otherwise.
  */
  lemma HandledOnceIffHit(st: State, steps: seq<Step>, household: int, e: Event, now: int)
    requires e.reminderMinutes.Some? && !e.cancelled && Unedited(steps, e) && Monotone(steps, now)
    requires ReminderKey(household, e) !in st.sent
    ensures Times(Run(st, steps).log, ReminderKey(household, e))
         == Times(st.log, ReminderKey(household, e))
            + if (exists i :: 0 <= i < |steps| && Hits(steps[i], household, e)) then 1 else 0
  {
    hide HitsWithin, Run, Monotone, Unedited, EventRef;
    EventHitsWithin(steps, household, e);
    var hits := EventHits(household, e);
    OnceIffHit(st, steps, ReminderKey(household, e), hits, ReminderTime(e) - 60, ReminderTime(e), now);
    assert SomeHit(steps, hits) <==> exists i :: 0 <= i < |steps| && Hits(steps[i], household, e) by {
      assert forall i :: 0 <= i < |steps| ==> hits(steps[i]) == Hits(steps[i], household, e);
    }
  }

  /** The instants at which a household is checked. */
  function Checks(steps: seq<Step>, household: int): seq<int> {
    if steps == [] then []
    else
      (if steps[0].Reminders? && steps[0].household == household then [steps[0].now] else [])
      + Checks(steps[1..], household)
  }

  /** Checks are never more than a minute apart, begin by the reminder time and go on into its minute. */
  predicate Covers(checks: seq<int>, time: int) {
    && |checks| > 0
    && (forall i :: 0 <= i < |checks| - 1 ==> checks[i] <= checks[i + 1] <= checks[i] + 60)
    && checks[0] <= time && checks[|checks| - 1] > time - 60
  }

  lemma {:induction false} SomeCheckHits(checks: seq<int>, time: int) returns (i: nat)
    requires Covers(checks, time)
    ensures i < |checks| && checks[i] <= time < checks[i] + 60
  {
    if time < checks[0] + 60 {
      i := 0;
    } else {
      i := SomeCheckHits(checks[1..], time);
      i := i + 1;
    }
  }

  lemma {:induction false} CheckIsStep(steps: seq<Step>, household: int, i: nat) returns (j: nat)
    requires i < |Checks(steps, household)|
    ensures j < |steps| && steps[j].Reminders? && steps[j].household == household
            && steps[j].now == Checks(steps, household)[i]
  {
    if steps[0].Reminders? && steps[0].household == household {
      if i == 0 {
        j := 0;
      } else {
        j := CheckIsStep(steps[1..], household, i - 1);
        j := j + 1;
      }
    } else {
      j := CheckIsStep(steps[1..], household, i);
      j := j + 1;
    }
  }

  /**
    Exactly once: if the household's checks are at most 60 seconds apart and span the
    reminder time, the event is handled at exactly one of them, cleanups notwithstanding.
  */
  lemma ExactlyOnce(st: State, steps: seq<Step>, household: int, e: Event, now: int)
    requires e.reminderMinutes.Some? && !e.cancelled && Unedited(steps, e) && Monotone(steps, now)
    requires ReminderKey(household, e) !in st.sent
    requires Covers(Checks(steps, household), ReminderTime(e))
    ensures Times(Run(st, steps).log, ReminderKey(household, e)) == Times(st.log, ReminderKey(household, e)) + 1
  {
    hide EventRef, Run, Unedited, Covers;
    var i := SomeCheckHits(Checks(steps, household), ReminderTime(e));
    var j := CheckIsStep(steps, household, i);
    assert Hits(steps[j], household, e);
    HandledOnceIffHit(st, steps, household, e, now);
  }

  // ----- the daily chore summary -----

  /** The record of a household's summary on a day. */
  function DayKey(household: int, day: int): Key {
    ChoreKey(household, day * Calendar.DAY)
  }

  /** The household is checked at minute 0 of some hour of the day and there are chores. */
  predicate ChoreHits(s: Step, household: int, day: int) {
    s.Chores? && s.household == household && Calendar.DayNumber(s.now) == day
    && s.now % 3600 < 60 && s.chores > 0
  }

  function SummaryHits(household: int, day: int): Step -> bool {
    (s: Step) => ChoreHits(s, household, day)
  }

  lemma SameDayKey(h: int, now: int, household: int, day: int)
    ensures ChoreKey(h, now) == DayKey(household, day) <==> h == household && Calendar.DayNumber(now) == day
  {
    hide DateKey, Calendar.DayNumber;
    DateKeyIff(now, day * Calendar.DAY);
    Calendar.ShiftDays(0, day);
    assert Calendar.DayNumber(day * Calendar.DAY) == day by { DayOfMidnight(day); }
    assert ChoreKey(h, now).ref[12..] == DateKey(now);
    assert DayKey(household, day).ref[12..] == DateKey(day * Calendar.DAY);
  }

  lemma DayOfMidnight(day: int)
    ensures Calendar.DayNumber(day * Calendar.DAY) == day
  {
  }

  lemma {:induction false} EventsLeaveSummary(st: State, h: int, events: seq<Event>, now: int, key: Key)
    requires key.kind == ChoreDue
    ensures Effect(st, NotifyEvents(st, h, events, now), key, now, false)
    decreases |events|
  {
    hide EventRef;
    if events != [] {
      var d := events[0];
      var next := if d.reminderMinutes.Some? then Notify(st, ReminderKey(h, d), now) else st;
      if d.reminderMinutes.Some? { NotifyOther(st, ReminderKey(h, d), key, now); }
      EventsLeaveSummary(next, h, events[1..], now, key);
    }
  }

  lemma FullHour(t: int)
    ensures Calendar.Minute(t) == 0 <==> t % 3600 < 60
  {
  }

  lemma SummaryEffect(st: State, s: Step, household: int, day: int)
    ensures Matters(st, s, DayKey(household, day), ChoreHits(s, household, day))
  {
    hide DateKey, Calendar.Minute, Calendar.DayNumber;
    var key := DayKey(household, day);
    match s
    case Reminders(h, now, rows) => EventsLeaveSummary(st, h, Where(rows, Upcoming(now, now + 60)), now, key);
    case Chores(h, now, chores) =>
      SameDayKey(h, now, household, day);
      FullHour(now);
      if ChoreKey(h, now) == key {
        TimesAdd(st.log, Handled(key, now), key);
      } else {
        NotifyOther(st, ChoreKey(h, now), key, now);
      }
    case Sweep(now) =>
  }

  lemma SummaryHitsWithin(steps: seq<Step>, household: int, day: int)
    ensures HitsWithin(steps, DayKey(household, day), SummaryHits(household, day),
                       day * Calendar.DAY - 1, day * Calendar.DAY + Calendar.DAY - 1)
  {
    hide Matters, Calendar.Minute, DayKey;
    forall i, st | 0 <= i < |steps|
      ensures Matters(st, steps[i], DayKey(household, day), SummaryHits(household, day)(steps[i]))
    {
      SummaryEffect(st, steps[i], household, day);
    }
  }

  /**
    One chore summary a day: over any run a household gets it once on a day if some
    check falls on a full hour of that day while there are chores, and not at all otherwise.
  */
  lemma OneSummaryADay(st: State, steps: seq<Step>, household: int, day: int, now: int)
    requires Monotone(steps, now) && DayKey(household, day) !in st.sent
    ensures Times(Run(st, steps).log, DayKey(household, day))
         == Times(st.log, DayKey(household, day))
            + if (exists i :: 0 <= i < |steps| && ChoreHits(steps[i], household, day)) then 1 else 0
  {
    hide HitsWithin, Run, Monotone, DayKey, Calendar.Minute, Calendar.DayNumber;
    SummaryHitsWithin(steps, household, day);
    var hits := SummaryHits(household, day);
    var midnight := day * Calendar.DAY;
    OnceIffHit(st, steps, DayKey(household, day), hits, midnight - 1, midnight + Calendar.DAY - 1, now);
    assert forall i :: 0 <= i < |steps| ==> hits(steps[i]) == ChoreHits(steps[i], household, day);
  }
}
