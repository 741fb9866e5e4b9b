/**
  The proleptic Gregorian calendar as Go's time package uses it, in UTC.

  An instant is the number of whole seconds since 0001-01-01 00:00:00, which is
  Go's zero time (and a Monday). A day number is that instant divided by 86400,
  and a month is counted by one index, 12 * year + (month - 1), so that adding
  months is adding to the index.
*/
module Calendar {

  const DAY := 86400

  predicate IsLeap(y: int) {
    y % 4 == 0 && (y % 100 != 0 || y % 400 == 0)
  }

  /** The usual table of month lengths; m counts from 0 for January. */
  function MonthLength(y: int, m: int): (len: int)
    requires 0 <= m < 12
    ensures 28 <= len <= 31
  {
    if m == 1 then (if IsLeap(y) then 29 else 28)
    else if m == 3 || m == 5 || m == 8 || m == 10 then 30
    else 31
  }

  /** Length of the month with index mi. */
  function Len(mi: int): (len: int)
    ensures 28 <= len <= 31
  {
    MonthLength(mi / 12, mi % 12)
  }

  /** Day number of the first day of the month with index mi, counted month by month from January of year 1. */
  function MonthStart(mi: int): int
    decreases if mi >= 12 then mi - 12 else 12 - mi
  {
    if mi == 12 then 0
    else if mi > 12 then MonthStart(mi - 1) + Len(mi - 1)
    else MonthStart(mi + 1) - Len(mi)
  }

  /** The month that holds day n, searched from mi. */
  function MonthFrom(n: int, mi: int): int
    decreases if n < MonthStart(mi) then MonthStart(mi) - n + 31 else n - MonthStart(mi)
  {
    MonthsTile(mi - 1);
    MonthsTile(mi);
    if n < MonthStart(mi) then MonthFrom(n, mi - 1)
    else if n >= MonthStart(mi + 1) then MonthFrom(n, mi + 1)
    else mi
  }

  /** Month index of a day number. */
  function MonthOf(n: int): int {
    MonthFrom(n, 12)
  }

  /** Day of the month of a day number, from 1. */
  function DayOf(n: int): int {
    n - MonthStart(MonthOf(n)) + 1
  }

  // ----- the calendar round trip -----

  /** A quotient and a remainder that fit are the ones. */
  lemma UniqueRemainder(x: int, m: int, q: int, r: int)
    requires m > 0 && x == m * q + r && 0 <= r < m
    ensures x % m == r
  {
    var p, s := x / m, x % m;
    assert m * (q - p) == s - r;
    assert q - p >= 1 ==> m * (q - p) >= m;
    assert q - p <= -1 ==> m * (q - p) <= -m;
  }

  lemma Divide4(n: int, q: int, r: int)
    requires n == 4 * q + r && 0 <= r < 4
    ensures n / 4 == q && n % 4 == r
  {
  }

  lemma Divide100(n: int, q: int, r: int)
    requires n == 100 * q + r && 0 <= r < 100
    ensures n / 100 == q && n % 100 == r
  {
  }

  lemma Divide400(n: int, q: int, r: int)
    requires n == 400 * q + r && 0 <= r < 400
    ensures n / 400 == q && n % 400 == r
  {
  }

  lemma PreviousYear(y: int)
    ensures (y - 1) / 4 == if y % 4 == 0 then y / 4 - 1 else y / 4
    ensures (y - 1) / 100 == if y % 100 == 0 then y / 100 - 1 else y / 100
    ensures (y - 1) / 400 == if y % 400 == 0 then y / 400 - 1 else y / 400
  {
    if y % 4 == 0 { Divide4(y - 1, y / 4 - 1, 3); } else { Divide4(y - 1, y / 4, y % 4 - 1); }
    if y % 100 == 0 { Divide100(y - 1, y / 100 - 1, 99); } else { Divide100(y - 1, y / 100, y % 100 - 1); }
    if y % 400 == 0 { Divide400(y - 1, y / 400 - 1, 399); } else { Divide400(y - 1, y / 400, y % 400 - 1); }
  }

  lemma CenturyIsFourth(y: int)
    ensures y % 400 == 0 ==> y % 100 == 0
    ensures y % 100 == 0 ==> y % 4 == 0
  {
    if y % 400 == 0 { Divide100(y, 4 * (y / 400), 0); }
    if y % 100 == 0 { Divide4(y, 25 * (y / 100), 0); }
  }

  /** The closed form grows by 365 or 366 days a year. */
  lemma YearLength(y: int)
    ensures YearStart(y + 1) - YearStart(y) == (if IsLeap(y) then 366 else 365)
  {
    PreviousYear(y);
    CenturyIsFourth(y);
  }

  /** Months tile the days: each starts where the previous one ends. */
  lemma MonthsTile(mi: int)
    ensures MonthStart(mi + 1) == MonthStart(mi) + Len(mi)
  {
    hide Len;
  }

  lemma MonthsOfYear(y: int, m: int)
    requires 0 <= m < 12
    ensures (12 * y + m) / 12 == y && (12 * y + m) % 12 == m
    ensures MonthStart(12 * y + m + 1) == MonthStart(12 * y + m) + MonthLength(y, m)
  {
    hide MonthStart;
    MonthsTile(12 * y + m);
  }

  /** Twelve months make a year of 365 or 366 days. */
  lemma TwelveMonths(y: int)
    ensures MonthStart(12 * (y + 1)) == MonthStart(12 * y) + (if IsLeap(y) then 366 else 365)
  {
    hide MonthStart, IsLeap;
    MonthsOfYear(y, 0);
    MonthsOfYear(y, 1);
    MonthsOfYear(y, 2);
    MonthsOfYear(y, 3);
    MonthsOfYear(y, 4);
    MonthsOfYear(y, 5);
    MonthsOfYear(y, 6);
    MonthsOfYear(y, 7);
    MonthsOfYear(y, 8);
    MonthsOfYear(y, 9);
    MonthsOfYear(y, 10);
    MonthsOfYear(y, 11);
  }

  /** Day number of 1 January of year y, by counting leap years. */
  function YearStart(y: int): int {
    365 * (y - 1) + (y - 1) / 4 - (y - 1) / 100 + (y - 1) / 400
  }

  /** Counting month by month agrees with counting leap years, for every year before and after year 1. */
  lemma {:induction false} YearStartIs(y: int)
    ensures MonthStart(12 * y) == 365 * (y - 1) + (y - 1) / 4 - (y - 1) / 100 + (y - 1) / 400
    decreases if y >= 1 then y - 1 else 1 - y
  {
    hide IsLeap;
    if y > 1 {
      YearStartIs(y - 1);
      TwelveMonths(y - 1);
      YearLength(y - 1);
    } else if y < 1 {
      YearStartIs(y + 1);
      TwelveMonths(y);
      YearLength(y);
    }
  }

  lemma {:induction false} MonthStartGrows(a: int, b: int)
    requires a <= b
    ensures MonthStart(a) + 28 * (b - a) <= MonthStart(b)
    decreases b - a
  {
    if a < b {
      MonthStartGrows(a, b - 1);
      MonthsTile(b - 1);
    }
  }

  lemma {:induction false} MonthFromBounds(n: int, mi: int)
    ensures MonthStart(MonthFrom(n, mi)) <= n < MonthStart(MonthFrom(n, mi) + 1)
    decreases if n < MonthStart(mi) then MonthStart(mi) - n + 31 else n - MonthStart(mi)
  {
    hide MonthStart, Len;
    MonthsTile(mi - 1);
    MonthsTile(mi);
    if n < MonthStart(mi) {
      MonthFromBounds(n, mi - 1);
    } else if n >= MonthStart(mi + 1) {
      MonthFromBounds(n, mi + 1);
    }
  }

  lemma MonthOfBounds(n: int)
    ensures MonthStart(MonthOf(n)) <= n < MonthStart(MonthOf(n) + 1)
  {
    hide MonthStart;
    MonthFromBounds(n, 12);
  }

  /** Civil date to day number and back: the month and day read off are those put in. */
  lemma CivilRoundTrip(mi: int, d: int)
    requires 1 <= d <= Len(mi)
    ensures MonthOf(MonthStart(mi) + d - 1) == mi
    ensures DayOf(MonthStart(mi) + d - 1) == d
  {
    hide MonthOf, MonthStart, Len;
    var n := MonthStart(mi) + d - 1;
    MonthOfBounds(n);
    MonthsTile(mi);
    if MonthOf(n) < mi {
      MonthStartGrows(MonthOf(n) + 1, mi);
    } else if mi < MonthOf(n) {
      MonthStartGrows(mi + 1, MonthOf(n));
    }
  }

  /** Day number to civil date and back; and the day read off exists in its month. */
  lemma DayRoundTrip(n: int)
    ensures MonthStart(MonthOf(n)) + DayOf(n) - 1 == n
    ensures 1 <= DayOf(n) <= Len(MonthOf(n))
  {
    MonthOfBounds(n);
    MonthsTile(MonthOf(n));
  }

  // ----- the part of Go's time package the program calls -----

  function DayNumber(t: int): int { t / DAY }

  function TimeOfDay(t: int): (s: int)
    ensures 0 <= s < DAY
  {
    t % DAY
  }

  function Year(t: int): int { MonthOf(t / DAY) / 12 }

  function Month(t: int): (m: int)
    ensures 1 <= m <= 12
  {
    MonthOf(t / DAY) % 12 + 1
  }

  function Day(t: int): (d: int)
    ensures 1 <= d <= 31
  {
    DayRoundTrip(t / DAY);
    DayOf(t / DAY)
  }

  function Hour(t: int): (h: int)
    ensures 0 <= h < 24
  {
    t % DAY / 3600
  }

  function Minute(t: int): (m: int)
    ensures 0 <= m < 60
  {
    t % 3600 / 60
  }

  function Second(t: int): (s: int)
    ensures 0 <= s < 60
  {
    t % 60
  }

  /** time.Date: months outside 1..12 and days outside the month carry over. */
  function Date(year: int, month: int, day: int, hour: int, min: int, sec: int): int {
    (MonthStart(12 * year + month - 1) + day - 1) * DAY + hour * 3600 + min * 60 + sec
  }

  /** Time.AddDate. */
  function AddDate(t: int, years: int, months: int, days: int): int {
    Date(Year(t) + years, Month(t) + months, Day(t) + days, Hour(t), Minute(t), Second(t))
  }

  /** Time.Weekday: 0 is Sunday; day number 0 was a Monday. */
  function Weekday(t: int): (w: int)
    ensures 0 <= w < 7
  {
    (t / DAY + 1) % 7
  }

  lemma ShiftDays(t: int, k: int)
    ensures (t + k * DAY) / DAY == t / DAY + k && (t + k * DAY) % DAY == t % DAY
  {
  }

  lemma ShiftWeeks(d: int, k: int)
    ensures (d + 7 * k) % 7 == d % 7
  {
  }

  /** Reading a clock time off an instant and putting it back loses nothing. */
  lemma ClockRoundTrip(t: int)
    ensures Hour(t) * 3600 + Minute(t) * 60 + Second(t) == TimeOfDay(t)
  {
    var s := t % DAY;
    UniqueRemainder(t, 3600, 24 * (t / DAY) + s / 3600, s % 3600);
    UniqueRemainder(t, 60, 60 * (t / 3600) + t % 3600 / 60, t % 3600 % 60);
  }

  /** AddDate moves the month index and the day of the month and keeps the time of day. */
  lemma AddDateNormalises(t: int, years: int, months: int, days: int)
    ensures AddDate(t, years, months, days)
         == (MonthStart(MonthOf(t / DAY) + 12 * years + months) + DayOf(t / DAY) + days - 1) * DAY + TimeOfDay(t)
  {
    ClockRoundTrip(t);
    var mi := MonthOf(t / DAY);
    assert 12 * (Year(t) + years) + (Month(t) + months) - 1 == mi + 12 * years + months;
  }

  /** Adding only days adds exactly that many times 86400 seconds. */
  lemma AddDays(t: int, days: int)
    ensures AddDate(t, 0, 0, days) == t + days * DAY
  {
    AddDateNormalises(t, 0, 0, days);
    DayRoundTrip(t / DAY);
  }

  /** time.Date on the date of t, moved by some days, at another clock time. */
  lemma DateOfDay(t: int, days: int, hour: int, min: int, sec: int)
    ensures Date(Year(t), Month(t), Day(t) + days, hour, min, sec)
         == (t / DAY + days) * DAY + hour * 3600 + min * 60 + sec
  {
    DayRoundTrip(t / DAY);
  }

  /** A civil date and time that exist, made into an instant, are read back unchanged. */
  lemma DateReadBack(year: int, month: int, day: int, hour: int, min: int, sec: int)
    requires 1 <= month <= 12 && 1 <= day <= MonthLength(year, month - 1)
    requires 0 <= hour < 24 && 0 <= min < 60 && 0 <= sec < 60
    ensures var t := Date(year, month, day, hour, min, sec);
            Year(t) == year && Month(t) == month && Day(t) == day
            && Hour(t) == hour && Minute(t) == min && Second(t) == sec
  {
    hide MonthOf, DayOf, MonthStart, MonthLength;
    var mi := 12 * year + month - 1;
    UniqueRemainder(mi, 12, year, month - 1);
    assert Len(mi) == MonthLength(year, month - 1);
    CivilRoundTrip(mi, day);
    var clock := hour * 3600 + min * 60 + sec;
    ShiftDays(clock, MonthStart(mi) + day - 1);
    ClockReadBack(MonthStart(mi) + day - 1, hour, min, sec);
  }

  lemma ClockReadBack(n: int, hour: int, min: int, sec: int)
    requires 0 <= hour < 24 && 0 <= min < 60 && 0 <= sec < 60
    ensures var t := n * DAY + hour * 3600 + min * 60 + sec;
            t / DAY == n && Hour(t) == hour && Minute(t) == min && Second(t) == sec
  {
    var t := n * DAY + hour * 3600 + min * 60 + sec;
    var clock := hour * 3600 + min * 60 + sec;
    UniqueRemainder(t, DAY, n, clock);
    UniqueRemainder(clock, 3600, hour, min * 60 + sec);
    UniqueRemainder(t, 3600, 24 * n + hour, min * 60 + sec);
    UniqueRemainder(min * 60 + sec, 60, min, sec);
    UniqueRemainder(t, 60, 60 * (24 * n + hour) + min, sec);
  }

  /** 1970-01-01 lies 62135596800 seconds after the zero time and was a Thursday, as in Go's time package. */
  lemma UnixEpoch()
    ensures Date(1970, 1, 1, 0, 0, 0) == 62135596800 && Weekday(62135596800) == 4
  {
    hide MonthStart;
    YearStartIs(1970);
  }

  /** Day 0 of the next month is the last day of this one, so it reads the table. */
  lemma LastDayOfMonth(mi: int)
    ensures DayOf(MonthStart(mi + 1) - 1) == Len(mi)
  {
    MonthsTile(mi);
    CivilRoundTrip(mi, Len(mi));
  }
}
