/** The recurrence rule record shared by the parser and the iterator. */
module Rules {
  import opened Wrappers

  datatype Freq = Daily | Weekly | Monthly | Yearly

  /** Go's time.Weekday: 0 is Sunday. */
  type DayOfWeek = w: int | 0 <= w < 7

  /** A parsed UNTIL: whole seconds on the calendar's scale plus nanoseconds. */
  datatype Instant = Instant(sec: int, nano: nat)

  datatype Rule = Rule(
    freq: Freq,
    interval: int,              // 2 with Weekly is every other week
    byDay: seq<DayOfWeek>,      // Weekly: which days; empty is the weekday of the start
    byMonthDay: int,            // Monthly: day of the month; 0 is the day of the start
    count: int,                 // 0 is unlimited
    until: Option<Instant>      // the last instant that may still start an occurrence
  )

  /** What Parse guarantees of every rule it returns. */
  predicate WellFormed(r: Rule) {
    r.interval >= 1 && 0 <= r.byMonthDay <= 31 && r.count >= 0
  }
}
