/** The text keys under which occurrences and dates are looked up, and that they tell them apart. */
module TimeKeys {
  import opened Calendar
  import opened Text
  import opened RRule

  /** Time.Format("2006-01-02"). */
  function DateKey(t: int): string {
    FormatYear(Year(t)) + "-" + Pad(Month(t), 2) + "-" + Pad(Day(t), 2)
  }

  /** Time.Format("2006-01-02T15:04:05Z"). */
  function TimeKey(t: int): string {
    DateKey(t) + "T" + Pad(Hour(t), 2) + ":" + Pad(Minute(t), 2) + ":" + Pad(Second(t), 2) + "Z"
  }

  lemma {:induction false} NatOfZeros(k: nat, s: string)
    requires AllDigits(s)
    ensures AllDigits(seq(k, i => '0') + s)
    ensures NatOf(seq(k, i => '0') + s) == NatOf(s)
    decreases k + |s|
  {
    var z := seq(k, i => '0');
    if s != "" {
      NatOfZeros(k, s[..|s| - 1]);
      assert (z + s)[..|z + s| - 1] == z + s[..|s| - 1];
    } else if k > 0 {
      NatOfZeros(k - 1, s);
      assert (z + s)[..|z + s| - 1] == seq(k - 1, i => '0') + s;
    }
  }

  lemma NatOfPad(n: nat, width: nat)
    ensures NatOf(Pad(n, width)) == n
  {
    DigitsRoundTrip(n);
    var d := Digits(n);
    if |d| < width { NatOfZeros(width - |d|, d); }
  }

  lemma YearTextInjective(a: int, b: int)
    requires FormatYear(a) == FormatYear(b)
    ensures a == b
  {
    hide Pad;
    assert a < 0 ==> FormatYear(a)[0] == '-' && FormatYear(a)[1..] == Pad(-a, 4);
    assert b < 0 ==> FormatYear(b)[0] == '-' && FormatYear(b)[1..] == Pad(-b, 4);
    assert a >= 0 ==> IsDigit(FormatYear(a)[0]);
    assert b >= 0 ==> IsDigit(FormatYear(b)[0]);
    NatOfPad(if a < 0 then -a else a, 4);
    NatOfPad(if b < 0 then -b else b, 4);
  }

  lemma TwoDigitsInjective(a: nat, b: nat)
    requires a < 100 && b < 100 && Pad(a, 2) == Pad(b, 2)
    ensures a == b
  {
    hide Pad;
    NatOfPad(a, 2);
    NatOfPad(b, 2);
  }

  /** Texts that end in pieces of equal length are equal only piece by piece. */
  lemma SameTail(a: string, x: string, b: string, y: string)
    requires a + x == b + y && |x| == |y|
    ensures a == b && x == y
  {
    assert a == (a + x)[..|a|] && b == (b + y)[..|b|];
    assert x == (a + x)[|a|..] && y == (b + y)[|b|..];
  }

  lemma PadTwoLength(n: nat)
    requires n < 100
    ensures |Pad(n, 2)| == 2
  {
    PadTwo(n);
  }

  lemma CivilIsDay(t: int)
    ensures t / DAY == MonthStart(12 * Year(t) + Month(t) - 1) + Day(t) - 1
  {
    hide MonthOf, DayOf, MonthStart;
    DayRoundTrip(t / DAY);
  }

  /** Two instants have the same date key exactly when they lie on the same day. */
  lemma DateKeyIff(a: int, b: int)
    ensures DateKey(a) == DateKey(b) <==> DayNumber(a) == DayNumber(b)
  {
    hide FormatYear, Pad, MonthOf, DayOf, MonthStart;
    if DateKey(a) == DateKey(b) {
      SameDateKey(a, b);
      CivilIsDay(a);
      CivilIsDay(b);
    }
  }

  lemma SameDateKey(a: int, b: int)
    requires DateKey(a) == DateKey(b)
    ensures Year(a) == Year(b) && Month(a) == Month(b) && Day(a) == Day(b)
  {
    hide FormatYear, Pad, Year, Month, Day;
    PadTwoLength(Month(a));
    PadTwoLength(Month(b));
    PadTwoLength(Day(a));
    PadTwoLength(Day(b));
    SameTail(FormatYear(Year(a)) + "-" + Pad(Month(a), 2) + "-", Pad(Day(a), 2),
             FormatYear(Year(b)) + "-" + Pad(Month(b), 2) + "-", Pad(Day(b), 2));
    SameTail(FormatYear(Year(a)) + "-" + Pad(Month(a), 2), "-", FormatYear(Year(b)) + "-" + Pad(Month(b), 2), "-");
    SameTail(FormatYear(Year(a)) + "-", Pad(Month(a), 2), FormatYear(Year(b)) + "-", Pad(Month(b), 2));
    SameTail(FormatYear(Year(a)), "-", FormatYear(Year(b)), "-");
    YearTextInjective(Year(a), Year(b));
    TwoDigitsInjective(Month(a), Month(b));
    TwoDigitsInjective(Day(a), Day(b));
  }

  function ClockText(t: int): string {
    "T" + Pad(Hour(t), 2) + ":" + Pad(Minute(t), 2) + ":" + Pad(Second(t), 2) + "Z"
  }

  lemma SameClock(a: int, b: int)
    ensures |ClockText(a)| == 10
    ensures ClockText(a) == ClockText(b) ==> TimeOfDay(a) == TimeOfDay(b)
  {
    hide Pad, Hour, Minute, Second;
    PadTwoLength(Hour(a));
    PadTwoLength(Hour(b));
    PadTwoLength(Minute(a));
    PadTwoLength(Minute(b));
    PadTwoLength(Second(a));
    PadTwoLength(Second(b));
    if ClockText(a) == ClockText(b) {
      assert Pad(Hour(a), 2) == ClockText(a)[1..3] && Pad(Hour(b), 2) == ClockText(b)[1..3];
      assert Pad(Minute(a), 2) == ClockText(a)[4..6] && Pad(Minute(b), 2) == ClockText(b)[4..6];
      assert Pad(Second(a), 2) == ClockText(a)[7..9] && Pad(Second(b), 2) == ClockText(b)[7..9];
      TwoDigitsInjective(Hour(a), Hour(b));
      TwoDigitsInjective(Minute(a), Minute(b));
      TwoDigitsInjective(Second(a), Second(b));
    }
    ClockRoundTrip(a);
    ClockRoundTrip(b);
  }

  /** The lookup key tells all whole seconds apart. */
  lemma TimeKeyInjective(a: int, b: int)
    requires TimeKey(a) == TimeKey(b)
    ensures a == b
  {
    hide DateKey, Pad, Hour, Minute, Second;
    assert TimeKey(a) == DateKey(a) + ClockText(a) && TimeKey(b) == DateKey(b) + ClockText(b);
    SameClock(a, b);
    SameClock(b, a);
    SameTail(DateKey(a), ClockText(a), DateKey(b), ClockText(b));
    DateKeyIff(a, b);
  }

  /** The texts as a reader sees them. */
  lemma KeysRead()
    ensures DateKey(Date(2024, 1, 3, 9, 5, 7)) == "2024-01-03"
    ensures TimeKey(Date(2024, 1, 3, 9, 5, 7)) == "2024-01-03T09:05:07Z"
  {
    hide Year, Month, Day, Hour, Minute, Second, Date, Pad;
    DateReadBack(2024, 1, 3, 9, 5, 7);
    PadFour(2024);
    PadTwo(1);
    PadTwo(3);
    PadTwo(9);
    PadTwo(5);
    PadTwo(7);
  }
}
