/**
  What Parse accepts and what it answers, stated on the parts of the string: which
  parts are good, and which of them decides each field of the rule.
*/
module ParseMeaning {
  import opened Wrappers
  import opened Calendar
  import opened Rules
  import opened Text
  import opened RRule
  import opened RRuleLaws
  import opened TimeKeys

  // ----- the vocabulary -----

  predicate FreqNamed(s: string, f: Freq) {
    (s == "DAILY" && f == Daily) || (s == "WEEKLY" && f == Weekly) || (s == "MONTHLY" && f == Monthly)
    || (s == "YEARLY" && f == Yearly)
  }

  /** The weekdays, from Sunday as 0. */
  predicate DayNamed(s: string, d: int) {
    (s == "SU" && d == 0) || (s == "MO" && d == 1) || (s == "TU" && d == 2) || (s == "WE" && d == 3)
    || (s == "TH" && d == 4) || (s == "FR" && d == 5) || (s == "SA" && d == 6)
  }

  ghost predicate NamesDay(s: string) {
    exists d :: DayNamed(s, d)
  }

  ghost predicate NamesFreq(s: string) {
    exists f :: FreqNamed(s, f)
  }

  predicate NumberFrom(s: string, lo: int) {
    Atoi(s).Some? && Atoi(s).value >= lo
  }

  /** A part that Parse reads: one of six keys, with a value that key can have. */
  ghost predicate GoodPart(part: string) {
    match Cut(part, '=')
    case None => false
    case Some((key, val)) =>
      || (key == "FREQ" && NamesFreq(val))
      || (key == "INTERVAL" && NumberFrom(val, 1))
      || (key == "COUNT" && NumberFrom(val, 1))
      || (key == "BYMONTHDAY" && NumberFrom(val, 1) && Atoi(val).value <= 31)
      || (key == "BYDAY" && forall i :: 0 <= i < |Split(val, ',')| ==> NamesDay(TrimSpace(Split(val, ',')[i])))
      || (key == "UNTIL" && (ParseStamp(val).Some? || ParseDay(val).Some?))
  }

  /** The value a part gives a key, if it is a part of that key. */
  function ValueOf(part: string, key: string): Option<string> {
    match Cut(part, '=')
    case None => None
    case Some((k, v)) => if k == key then Some(v) else None
  }

  /** The last value given to a key. */
  function LastValue(parts: seq<string>, key: string): Option<string> {
    if parts == [] then None
    else
      var n := |parts| - 1;
      if ValueOf(parts[n], key).Some? then ValueOf(parts[n], key) else LastValue(parts[..n], key)
  }

  /** All names in the BYDAY parts, in order. */
  function DayNamesIn(parts: seq<string>): seq<string> {
    if parts == [] then []
    else
      var n := |parts| - 1;
      var val := ValueOf(parts[n], "BYDAY");
      DayNamesIn(parts[..n]) + if val.Some? then Split(val.value, ',') else []
  }

  predicate NamedDays(names: seq<string>, days: seq<DayOfWeek>) {
    |names| == |days| && forall i :: 0 <= i < |names| ==> DayNamed(TrimSpace(names[i]), days[i])
  }

  // ----- one part -----

  lemma DayFromNameIs(s: string)
    ensures DayFromName(s).Some? <==> NamesDay(s)
    ensures DayFromName(s).Some? ==> DayNamed(s, DayFromName(s).value)
  {
    assert DayFromName(s).Some? ==> DayNamed(s, DayFromName(s).value);
  }

  lemma FreqFromNameIs(s: string)
    ensures FreqFromName(s).Some? <==> NamesFreq(s)
    ensures FreqFromName(s).Some? ==> FreqNamed(s, FreqFromName(s).value)
  {
    assert FreqFromName(s).Some? ==> FreqNamed(s, FreqFromName(s).value);
  }

  lemma {:induction false} AddDaysIs(names: seq<string>, days: seq<DayOfWeek>)
    ensures RRule.AddDays(names, days).Ok? <==> forall i :: 0 <= i < |names| ==> NamesDay(TrimSpace(names[i]))
    ensures RRule.AddDays(names, days).Ok? ==>
              exists more :: RRule.AddDays(names, days).value == days + more && NamedDays(names, more)
  {
    hide DayFromName, TrimSpace, DayNamed, NamesDay;
    if names == [] {
      assert days + [] == days && NamedDays(names, []);
    } else {
      DayFromNameIs(TrimSpace(names[0]));
      var d := DayFromName(TrimSpace(names[0]));
      if d.Some? {
        AddDaysIs(names[1..], days + [d.value]);
        assert names == [names[0]] + names[1..];
        if RRule.AddDays(names, days).Ok? {
          var more :| RRule.AddDays(names, days).value == days + [d.value] + more && NamedDays(names[1..], more);
          assert days + [d.value] + more == days + ([d.value] + more);
          assert NamedDays(names, [d.value] + more);
        }
      }
    }
  }

  /** What reading one part does to the rule so far. */
  ghost predicate PartFits(p: Progress, part: string, q: Progress) {
    && (q.hasFreq <==> p.hasFreq || ValueOf(part, "FREQ").Some?)
    && (match ValueOf(part, "FREQ") case Some(v) => FreqNamed(v, q.rule.freq) case None => q.rule.freq == p.rule.freq)
    && (match ValueOf(part, "INTERVAL")
        case Some(v) => Atoi(v) == Some(q.rule.interval) case None => q.rule.interval == p.rule.interval)
    && (match ValueOf(part, "BYMONTHDAY")
        case Some(v) => Atoi(v) == Some(q.rule.byMonthDay) case None => q.rule.byMonthDay == p.rule.byMonthDay)
    && (match ValueOf(part, "COUNT")
        case Some(v) => Atoi(v) == Some(q.rule.count) case None => q.rule.count == p.rule.count)
    && (match ValueOf(part, "UNTIL")
        case Some(v) => q.rule.until == (if ParseStamp(v).Some? then ParseStamp(v) else ParseDay(v))
        case None => q.rule.until == p.rule.until)
    && (match ValueOf(part, "BYDAY")
        case Some(v) => exists more :: q.rule.byDay == p.rule.byDay + more && NamedDays(Split(v, ','), more)
        case None => q.rule.byDay == p.rule.byDay)
  }

  lemma ReadPartIs(p: Progress, part: string)
    ensures ReadPart(p, part).Ok? <==> GoodPart(part)
    ensures ReadPart(p, part).Ok? ==> PartFits(p, part, ReadPart(p, part).value)
  {
    hide Atoi, ParseStamp, ParseDay, Split, RRule.AddDays, FreqFromName, NamesFreq, NamesDay, TrimSpace, FreqNamed;
    hide NamedDays, Cut;
    KeysDiffer();
    if Cut(part, '=').Some? {
      var (key, val) := Cut(part, '=').value;
      FreqFromNameIs(val);
      AddDaysIs(Split(val, ','), p.rule.byDay);
    }
  }

  // ----- all parts -----

  /** The rule read from some parts: each field by the last value of its key, BYDAY by all of them. */
  ghost predicate Fits(parts: seq<string>, p: Progress) {
    && (p.hasFreq <==> LastValue(parts, "FREQ").Some?)
    && (p.hasFreq ==> FreqNamed(LastValue(parts, "FREQ").value, p.rule.freq))
    && (match LastValue(parts, "INTERVAL")
        case Some(v) => Atoi(v) == Some(p.rule.interval) case None => p.rule.interval == 1)
    && (match LastValue(parts, "BYMONTHDAY")
        case Some(v) => Atoi(v) == Some(p.rule.byMonthDay) case None => p.rule.byMonthDay == 0)
    && (match LastValue(parts, "COUNT") case Some(v) => Atoi(v) == Some(p.rule.count) case None => p.rule.count == 0)
    && (match LastValue(parts, "UNTIL")
        case Some(v) => p.rule.until == (if ParseStamp(v).Some? then ParseStamp(v) else ParseDay(v))
        case None => p.rule.until.None?)
    && NamedDays(DayNamesIn(parts), p.rule.byDay)
  }

  lemma NamedDaysJoin(a: seq<string>, x: seq<DayOfWeek>, b: seq<string>, y: seq<DayOfWeek>)
    requires NamedDays(a, x) && NamedDays(b, y)
    ensures NamedDays(a + b, x + y)
  {
    hide DayNamed, TrimSpace;
  }

  lemma FitsNext(parts: seq<string>, p: Progress, part: string, q: Progress)
    requires Fits(parts, p) && PartFits(p, part, q)
    ensures Fits(parts + [part], q)
  {
    hide Atoi, ParseStamp, ParseDay, Split, FreqNamed, NamedDays, ValueOf;
    var all := parts + [part];
    assert all[..|all| - 1] == parts && all[|all| - 1] == part;
    if ValueOf(part, "BYDAY").Some? {
      var names := Split(ValueOf(part, "BYDAY").value, ',');
      var more :| q.rule.byDay == p.rule.byDay + more && NamedDays(names, more);
      NamedDaysJoin(DayNamesIn(parts), p.rule.byDay, names, more);
    } else {
      assert DayNamesIn(parts) + [] == DayNamesIn(parts);
    }
  }

  lemma {:induction false} ReadingIs(parts: seq<string>)
    ensures var res := ReadParts(parts, Ok(Progress(DEFAULTS, false)));
            && (res.Ok? <==> forall i :: 0 <= i < |parts| ==> GoodPart(parts[i]))
            && (res.Ok? ==> Fits(parts, res.value))
    decreases |parts|
  {
    hide ReadPart, GoodPart, PartFits;
    if parts == [] {
      assert Fits(parts, Progress(DEFAULTS, false)) by { hide *; NothingRead(); }
    } else {
      hide Fits;
      var n := |parts| - 1;
      var first, x := parts[..n], parts[n];
      ReadingIs(first);
      assert parts == first + [x];
      var p := ReadParts(first, Ok(Progress(DEFAULTS, false)));
      ReadAppend(first, [x], Ok(Progress(DEFAULTS, false)));
      ReadOne(x, p);
      if p.Ok? {
        ReadPartIs(p.value, x);
        if GoodPart(x) { FitsNext(first, p.value, x, ReadPart(p.value, x).value); }
      }
    }
  }

  lemma ReadOne(x: string, p: Result<Progress>)
    ensures ReadParts([x], p) == if p.Err? then p else ReadPart(p.value, x)
  {
    hide ReadPart;
    assert [x][1..] == [];
    if p.Ok? { assert ReadParts([], ReadPart(p.value, x)) == ReadPart(p.value, x); }
  }

  lemma NothingRead()
    ensures Fits([], Progress(DEFAULTS, false))
  {
  }

  /**
    Parse accepts a string exactly if it is not empty, every part between semicolons is
    a known key with a value that key can have, and FREQ is among them.
  */
  lemma AcceptedIff(s: string)
    ensures Parsed(s).Ok?
       <==> && s != ""
            && (forall i :: 0 <= i < |Split(s, ';')| ==> GoodPart(Split(s, ';')[i]))
            && LastValue(Split(s, ';'), "FREQ").Some?
  {
    hide ReadParts, GoodPart, Split;
    ReadingIs(Split(s, ';'));
  }

  /**
    The rule it answers: every field is the last value given to its key, or its default
    (INTERVAL 1, COUNT 0, no BYMONTHDAY, no UNTIL), and BYDAY is all the days named in
    any BYDAY part, in order.
  */
  lemma AnswerIs(s: string)
    requires Parsed(s).Ok?
    ensures Fits(Split(s, ';'), Progress(Parsed(s).value, true))
  {
    hide ReadParts, GoodPart, Split, Fits;
    ReadingIs(Split(s, ';'));
    var q := ReadParts(Split(s, ';'), Ok(Progress(DEFAULTS, false))).value;
    assert q == Progress(q.rule, q.hasFreq);
  }

  // ----- numbers, spaces and dates -----

  /** Digits are read as the number they print. */
  lemma {:induction false} DigitsAre(s: string)
    requires AllDigits(s) && s != ""
    ensures Pad(NatOf(s), |s|) == s
  {
    hide Pad, Digits, NatOf, DigitValue;
    var n := |s| - 1;
    var front, c := s[..n], s[n];
    DigitBack(c);
    assert s == front + [c];
    if n == 0 {
      OneDigit(s);
    } else {
      DigitsAre(front);
      NatOfLast(front, c);
      PadLast(NatOf(front), DigitValue(c), n, front);
    }
  }

  lemma OneDigit(s: string)
    requires AllDigits(s) && |s| == 1
    ensures NatOf(s) == DigitValue(s[0]) && Pad(NatOf(s), 1) == s
  {
    assert NatOf(s[..0]) == 0;
    DigitBack(s[0]);
  }

  lemma PadLast(m: nat, d: nat, width: nat, front: string)
    requires d < 10 && width == |front| && width >= 1 && Pad(m, width) == front
    ensures Pad(10 * m + d, width + 1) == front + [DigitChar(d)]
  {
    hide Pad, DigitChar;
    if m == 0 {
      SmallPad(d, width + 1, front);
    } else {
      UniqueRemainder(10 * m + d, 10, m, d);
      TenTimes(m, d);
      PadMore(10 * m + d, width + 1);
    }
  }

  lemma TenTimes(m: nat, d: nat)
    requires d < 10
    ensures (10 * m + d) / 10 == m
  {
  }

  lemma NatOfLast(front: string, c: char)
    requires AllDigits(front) && IsDigit(c)
    ensures AllDigits(front + [c]) && NatOf(front + [c]) == 10 * NatOf(front) + DigitValue(c)
  {
    assert (front + [c])[..|front|] == front;
  }

  lemma DigitBack(c: char)
    requires IsDigit(c)
    ensures DigitChar(DigitValue(c)) == c
  {
  }

  lemma SmallPad(d: nat, width: nat, front: string)
    requires d < 10 && width == |front| + 1 && width >= 2 && Pad(0, |front|) == front
    ensures Pad(d, width) == front + [DigitChar(d)]
  {
    var zeros := seq(|front| - 1, i => '0');
    assert front == zeros + ['0'];
    assert seq(|front|, i => '0') == zeros + ['0'];
  }

  /** Atoi reads an optional sign and any digits, leading zeros included, within 64 bits. */
  lemma AtoiOf(n: nat, width: nat)
    ensures Atoi(Pad(n, width)) == (if n <= MAX_INT then Some(n) else None)
    ensures Atoi("+" + Pad(n, width)) == (if n <= MAX_INT then Some(n) else None)
    ensures Atoi("-" + Pad(n, width)).Some? <==> n <= MAX_INT + 1
    ensures n <= MAX_INT + 1 ==> Atoi("-" + Pad(n, width)).value + n == 0
  {
    hide Pad;
    var d := Pad(n, width);
    NatOfPad(n, width);
    PadNotEmpty(n, width);
    assert IsDigit(d[0]);
    assert ("+" + d)[1..] == d && ("-" + d)[1..] == d;
  }

  lemma PadNotEmpty(n: nat, width: nat)
    ensures Pad(n, width) != ""
  {
  }

  /** And nothing else. */
  lemma AtoiOnly(s: string)
    requires Atoi(s).Some?
    ensures exists n: nat, width: nat :: s == Pad(n, width) || s == "+" + Pad(n, width) || s == "-" + Pad(n, width)
  {
    hide Pad, NatOf;
    var digits := if s != "" && (s[0] == '-' || s[0] == '+') then s[1..] else s;
    DigitsAre(digits);
    assert s == digits || s == "+" + digits || s == "-" + digits;
    assert digits == Pad(NatOf(digits), |digits|);
  }

  /** TrimSpace takes the spaces off both ends and nothing else. */
  lemma TrimIs(s: string) returns (i: nat, j: nat)
    ensures i <= j <= |s| && TrimSpace(s) == s[i..j]
    ensures forall k :: 0 <= k < |s| && (k < i || j <= k) ==> IsSpace(s[k])
    ensures i < j ==> !IsSpace(s[i]) && !IsSpace(s[j - 1])
  {
    hide IsSpace;
    i := LeftIs(s);
    j := RightIs(s[i..]);
    assert s[i..][..j] == s[i..i + j];
    forall k | i + j <= k < |s| ensures IsSpace(s[k]) { assert s[k] == s[i..][k - i]; }
    j := i + j;
  }

  lemma {:induction false} LeftIs(s: string) returns (i: nat)
    ensures i <= |s| && TrimLeft(s) == s[i..]
    ensures (forall k :: 0 <= k < i ==> IsSpace(s[k])) && (i < |s| ==> !IsSpace(s[i]))
  {
    hide IsSpace;
    if s != "" && IsSpace(s[0]) {
      i := LeftIs(s[1..]);
      i := i + 1;
    } else {
      i := 0;
    }
  }

  lemma {:induction false} RightIs(s: string) returns (j: nat)
    ensures j <= |s| && TrimRight(s) == s[..j]
    ensures (forall k :: j <= k < |s| ==> IsSpace(s[k])) && (j > 0 ==> !IsSpace(s[j - 1]))
  {
    hide IsSpace;
    if s != "" && IsSpace(s[|s| - 1]) {
      j := RightIs(s[..|s| - 1]);
      assert s[..|s| - 1][..j] == s[..j];
    } else {
      j := |s|;
      assert s[..j] == s;
    }
  }

  /** UNTIL as a date alone is midnight of that date. */
  lemma UntilDate(t: int)
    requires 0 <= Year(t) <= 9999
    ensures ParseDay(Pad(Year(t), 4) + Pad(Month(t), 2) + Pad(Day(t), 2)) == Some(Instant(t / 86400 * 86400, 0))
    ensures ParseStamp(Pad(Year(t), 4) + Pad(Month(t), 2) + Pad(Day(t), 2)).None?
  {
    hide Year, Month, Day, Date, DateOf, Pad;
    IsDateText(t);
    ReadDate(t, "");
    assert DateText(t) + "" == DateText(t);
    Midnight(t);
  }

  lemma Midnight(t: int)
    ensures Date(Year(t), Month(t), Day(t), 0, 0, 0) == t / 86400 * 86400
  {
    hide MonthOf, DayOf, MonthStart;
    DateOfDay(t, 0, 0, 0, 0);
  }

  /** Conversely only the eight digits of a date that exists are read as one. */
  lemma UntilDateOnly(s: string)
    requires ParseDay(s).Some?
    ensures var t := ParseDay(s).value.sec;
            0 <= Year(t) <= 9999 && s == Pad(Year(t), 4) + Pad(Month(t), 2) + Pad(Day(t), 2)
  {
    hide Year, Month, Day, Date, Pad, TwoAt, MonthLength, Hour, Minute, Second, DateOf;
    var (year, month, day) := DateOf(s).value;
    DateHalf(s);
    DateReadBack(year, month, day, 0, 0, 0);
    assert s[..8] == s;
  }

  lemma TwoDigitsAt(s: string, i: nat)
    requires TwoAt(s, i).Some?
    ensures i + 2 <= |s| && TwoAt(s, i).value < 100
    ensures s[i..i + 2] == [DigitChar(TwoAt(s, i).value / 10), DigitChar(TwoAt(s, i).value % 10)]
  {
    DigitBack(s[i]);
    DigitBack(s[i + 1]);
    var a, b := DigitValue(s[i]), DigitValue(s[i + 1]);
    UniqueRemainder(10 * a + b, 10, a, b);
  }

  lemma FourDigits(a: nat, b: nat)
    requires a < 100 && b < 100
    ensures var y := 100 * a + b;
            y < 10000 && y / 1000 == a / 10 && y / 100 % 10 == a % 10 && y / 10 % 10 == b / 10 && y % 10 == b % 10
  {
    var y := 100 * a + b;
    UniqueRemainder(y, 1000, a / 10, 100 * (a % 10) + b);
    UniqueRemainder(y, 100, a, b);
    UniqueRemainder(y, 10, 10 * a + b / 10, b % 10);
    UniqueRemainder(10 * a + b / 10, 10, a, b / 10);
  }

  /** The 15 characters of a date and time before the final Z. */
  function StampText(t: int): string
    requires 0 <= Year(t) <= 9999
  {
    Pad(Year(t), 4) + Pad(Month(t), 2) + Pad(Day(t), 2) + "T" + Pad(Hour(t), 2) + Pad(Minute(t), 2) + Pad(Second(t), 2)
  }

  /**
    UNTIL with a time: only a date and time that exist are read, then perhaps a
    separator and digits, then Z.
  */
  lemma UntilStampOnly(s: string)
    requires ParseStamp(s).Some?
    ensures var t := ParseStamp(s).value.sec;
            0 <= Year(t) <= 9999 && |s| >= 16 && s[..15] == StampText(t) && s[|s| - 1] == 'Z'
    ensures |s| == 16 || ((s[15] == '.' || s[15] == ',') && |s| > 17 && AllDigits(s[16..|s| - 1]))
  {
    hide Year, Month, Day, Date, Pad, TwoAt, MonthLength, Hour, Minute, Second, AllDigits, DateOf, Fraction;
    var (year, month, day) := DateOf(s).value;
    var hour, min, sec := TwoAt(s, 9).value, TwoAt(s, 11).value, TwoAt(s, 13).value;
    DateHalf(s);
    TwoDigits(s, 9);
    TwoDigits(s, 11);
    TwoDigits(s, 13);
    DateReadBack(year, month, day, hour, min, sec);
    Pieces(s);
    StampEnd(s);
  }

  lemma TwoDigits(s: string, i: nat)
    requires TwoAt(s, i).Some?
    ensures i + 2 <= |s| && s[i..i + 2] == Pad(TwoAt(s, i).value, 2)
  {
    hide TwoAt, Pad;
    TwoDigitsAt(s, i);
    PadTwo(TwoAt(s, i).value);
  }

  lemma DateHalf(s: string)
    requires DateOf(s).Some?
    ensures var (year, month, day) := DateOf(s).value;
            && 0 <= year <= 9999 && 1 <= month <= 12 && 1 <= day <= MonthLength(year, month - 1)
            && |s| >= 8 && s[..8] == Pad(year, 4) + Pad(month, 2) + Pad(day, 2)
  {
    hide Pad, TwoAt, MonthLength;
    TwoDigitsAt(s, 0);
    TwoDigitsAt(s, 2);
    TwoDigits(s, 4);
    TwoDigits(s, 6);
    PadFour(DateOf(s).value.0);
    FourDigits(TwoAt(s, 0).value, TwoAt(s, 2).value);
    assert s[..8] == s[0..2] + s[2..4] + s[4..6] + s[6..8];
  }

  lemma Pieces(s: string)
    requires |s| >= 15 && s[8] == 'T'
    ensures s[..15] == s[..8] + "T" + s[9..11] + s[11..13] + s[13..15]
  {
  }

  lemma StampEnd(s: string)
    requires |s| >= 15 && s[15 + Fraction(s, 15).0..] == "Z"
    ensures |s| >= 16 && s[|s| - 1] == 'Z'
    ensures |s| == 16 || ((s[15] == '.' || s[15] == ',') && |s| > 17 && AllDigits(s[16..|s| - 1]))
  {
    hide NatOf, AllDigits, Pow10;
    var n := Fraction(s, 15).0;
    assert s[|s| - 1] == s[15 + n..][0];
    if n > 0 { assert s[16..16 + DigitRun(s, 16)] == s[16..|s| - 1]; }
  }
}
