/** Chore status: which occurrence a chore is due for today and whether it is done. */
module Chores {
  import opened Wrappers
  import opened Calendar
  import opened Rules
  import opened Expansion
  import opened RRule
  import RRuleLaws
  import opened ReturnLaws

  datatype Status = Pending | Completed | Overdue | NotDue

  /** The two columns of a chore row that status depends on. */
  datatype Chore = Chore(recurrenceRule: string, createdAt: int)

  const HOUR := 3600

  function StartOfDay(t: int): int {
    Date(Year(t), Month(t), Day(t), 0, 0, 0)
  }

  lemma StartOfDayIs(t: int)
    ensures StartOfDay(t) == t / DAY * DAY
  {
    hide MonthOf, DayOf, MonthStart;
    DateOfDay(t, 0, 0, 0, 0);
  }

  /** The rule of a chore that recurs; none for a one-off chore or an unreadable rule. */
  function Recurrence(c: Chore): (r: Option<Rule>)
    ensures r.Some? ==> WellFormed(r.value)
  {
    hide Parsed, RRuleLaws.Legible;
    if c.recurrenceRule == "" then None
    else match Parsed(c.recurrenceRule)
      case Err(_) => None
      case Ok(r) =>
        RRuleLaws.ParseAccepts(c.recurrenceRule);
        Some(r)
  }

  /** The computation for this chore and day returns: its expansion does not hang. */
  ghost predicate Answers(c: Chore, today: int) {
    match Recurrence(c)
    case None => true
    case Some(r) => Returns(r, c.createdAt, StartOfDay(today) + 48 * HOUR)
  }

  /** That is so for a one-off chore, and else exactly when the rule can be expanded that far. */
  lemma AnswersIff(c: Chore, today: int)
    ensures Answers(c, today)
       <==> Recurrence(c).Some? ==> CanExpand(Recurrence(c).value, c.createdAt, (DayNumber(today) + 2) * DAY)
  {
    hide Recurrence, Returns, CanExpand, StartOfDay;
    StartOfDayIs(today);
    if Recurrence(c).Some? { ExpandReturnsIff(Recurrence(c).value, c.createdAt, (DayNumber(today) + 2) * DAY); }
  }

  /** Position of the last entry whose day starts before the limit. */
  function LastBefore(os: seq<Occurrence>, limit: int): (i: Option<nat>)
    ensures i.Some? ==> i.value < |os|
  {
    if os == [] then None
    else if StartOfDay(os[|os| - 1].start) < limit then Some(|os| - 1)
    else LastBefore(os[..|os| - 1], limit)
  }

  lemma {:induction false} LastBeforeIs(os: seq<Occurrence>, limit: int)
    ensures var i := LastBefore(os, limit);
            && (i.None? ==> forall j :: 0 <= j < |os| ==> StartOfDay(os[j].start) >= limit)
            && (i.Some? ==> StartOfDay(os[i.value].start) < limit)
            && (i.Some? ==> forall j :: i.value < j < |os| ==> StartOfDay(os[j].start) >= limit)
  {
    hide StartOfDay;
    if os != [] && StartOfDay(os[|os| - 1].start) >= limit {
      LastBeforeIs(os[..|os| - 1], limit);
    }
  }

  /** What Expand answers for the chore. */
  ghost function Occurrences(r: Rule, base: int, rangeStart: int, rangeEnd: int): seq<Occurrence>
    requires WellFormed(r) && Returns(r, base, rangeEnd)
  {
    Answer(r, base, HOUR, rangeStart, rangeEnd)
  }

  ghost function DueDate(c: Chore, today: int): Option<int>
    requires Answers(c, today)
  {
    match Recurrence(c)
    case None => None
    case Some(r) =>
      var os := Occurrences(r, c.createdAt, c.createdAt, StartOfDay(today) + 48 * HOUR);
      match LastBefore(os, StartOfDay(today) + 24 * HOUR)
      case None => None
      case Some(i) => Some(StartOfDay(os[i].start))
  }

  ghost function StatusOn(c: Chore, last: Option<int>, today: int): Status
    requires Answers(c, today)
  {
    if Recurrence(c).None? then (if last.Some? then Completed else Pending)
    else
      match DueDate(c, today)
      case None => NotDue
      case Some(due) =>
        if last.Some? && StartOfDay(last.value) >= due then Completed
        else if due < StartOfDay(today) then Overdue
        else Pending
  }

  method ComputeStatus(chore: Chore, lastCompletion: Option<int>, now: int)
    returns (status: Status, due: Option<int>)
    requires Answers(chore, now)
    ensures status == StatusOn(chore, lastCompletion, now) && due == DueDate(chore, now)
  {
    hide Parsed, Answer, Date, Year, Month, Day, WellFormed, Returns;
    var today := StartOfDay(now);
    if chore.recurrenceRule == "" {
      if lastCompletion.Some? {
        return Completed, None;
      }
      return Pending, None;
    }
    var parsed := Parse(chore.recurrenceRule);
    if parsed.Err? {
      if lastCompletion.Some? {
        return Completed, None;
      }
      return Pending, None;
    }
    var tomorrow := today + 48 * HOUR;
    var eventEnd := chore.createdAt + HOUR;
    var occurrences := Expand(parsed.value, chore.createdAt, eventEnd, chore.createdAt, tomorrow);
    if |occurrences| == 0 {
      return NotDue, None;
    }
    var endOfToday := today + 24 * HOUR;
    var currentDue: Option<int> := None;
    var i := |occurrences| - 1;
    assert occurrences[..i + 1] == occurrences;
    while i >= 0
      invariant -1 <= i < |occurrences|
      invariant currentDue.None?
      invariant LastBefore(occurrences, endOfToday) == LastBefore(occurrences[..i + 1], endOfToday)
    {
      assert occurrences[..i + 1][..i] == occurrences[..i];
      var occDate := StartOfDay(occurrences[i].start);
      if occDate < endOfToday {
        currentDue := Some(occDate);
        break;
      }
      i := i - 1;
    }
    if currentDue.None? {
      return NotDue, None;
    }
    if lastCompletion.Some? && !(StartOfDay(lastCompletion.value) < currentDue.value) {
      return Completed, currentDue;
    }
    if currentDue.value < today {
      return Overdue, currentDue;
    }
    return Pending, currentDue;
  }

  ghost predicate AnswersOnDate(c: Chore, date: int) {
    match Recurrence(c)
    case None => true
    case Some(r) => Returns(r, c.createdAt, StartOfDay(date) + 24 * HOUR)
  }

  lemma AnswersOnDateIff(c: Chore, date: int)
    ensures AnswersOnDate(c, date)
       <==> Recurrence(c).Some? ==> CanExpand(Recurrence(c).value, c.createdAt, (DayNumber(date) + 1) * DAY)
  {
    hide Recurrence, Returns, CanExpand, StartOfDay;
    StartOfDayIs(date);
    if Recurrence(c).Some? { ExpandReturnsIff(Recurrence(c).value, c.createdAt, (DayNumber(date) + 1) * DAY); }
  }

  ghost predicate DueOn(c: Chore, date: int)
    requires AnswersOnDate(c, date)
  {
    hide Date, Year, Month, Day, WellFormed, Returns, Parsed;
    if c.recurrenceRule == "" then true
    else match Recurrence(c)
      case None => false
      case Some(r) =>
        Occurrences(r, c.createdAt, StartOfDay(date), StartOfDay(date) + 24 * HOUR) != []
  }

  method IsDueOnDate(chore: Chore, date: int) returns (due: bool)
    requires AnswersOnDate(chore, date)
    ensures due == DueOn(chore, date)
  {
    hide Parsed, Answer, Date, Year, Month, Day, WellFormed, Returns;
    if chore.recurrenceRule == "" {
      return true;
    }
    var parsed := Parse(chore.recurrenceRule);
    if parsed.Err? {
      return false;
    }
    var dayStart := StartOfDay(date);
    var dayEnd := dayStart + 24 * HOUR;
    var eventEnd := chore.createdAt + HOUR;
    var occurrences := Expand(parsed.value, chore.createdAt, eventEnd, dayStart, dayEnd);
    return |occurrences| > 0;
  }
}
