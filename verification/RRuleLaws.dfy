/** Parse and String undo each other, exactly as far as the printed form allows. */
module RRuleLaws {
  import opened Wrappers
  import opened Calendar
  import opened Rules
  import opened Text
  import opened RRule

  // ----- UNTIL -----

  predicate FourDigitYear(u: Instant) {
    0 <= Year(u.sec) <= 9999
  }

  lemma TwoAtPad(a: string, n: nat, b: string)
    requires n < 100
    ensures TwoAt(a + Pad(n, 2) + b, |a|) == Some(n)
    ensures |Pad(n, 2)| == 2
  {
    PadTwo(n);
    var s := a + Pad(n, 2) + b;
    assert s[|a|] == DigitChar(n / 10) && s[|a| + 1] == DigitChar(n % 10);
  }

  /** The civil fields of an instant, put back together by time.Date. */
  lemma DateRoundTrip(t: int)
    ensures Date(Year(t), Month(t), Day(t), Hour(t), Minute(t), Second(t)) == t
  {
    hide MonthOf, DayOf, MonthStart;
    Calendar.AddDays(t, 0);
  }

  lemma DayExists(t: int)
    ensures Day(t) <= MonthLength(Year(t), Month(t) - 1)
  {
    hide MonthOf, DayOf, MonthStart;
    DayRoundTrip(t / DAY);
  }

  /** The date digits of an instant with a four-digit year. */
  function DateText(t: int): string
    requires 0 <= Year(t) <= 9999
  {
    Pad(Year(t), 4) + Pad(Month(t), 2) + Pad(Day(t), 2)
  }

  lemma TwoAtDigits(s: string, i: nat, n: nat)
    requires n < 100 && i + 2 <= |s| && s[i] == DigitChar(n / 10) && s[i + 1] == DigitChar(n % 10)
    ensures TwoAt(s, i) == Some(n)
  {
  }

  lemma YearHalves(y: int)
    requires 0 <= y <= 9999
    ensures y / 100 / 10 == y / 1000 && y % 100 / 10 == y / 10 % 10 && y % 100 % 10 == y % 10
    ensures 100 * (y / 100) + y % 100 == y
  {
    Thousands(y);
    var c, r := y / 100, y % 100;
    UniqueRemainder(y, 10, 10 * c + r / 10, r % 10);
    Tens(c, r / 10);
  }

  lemma Thousands(y: int)
    ensures y / 100 / 10 == y / 1000
  {
  }

  lemma Tens(c: int, d: int)
    requires 0 <= d < 10
    ensures (10 * c + d) % 10 == d
  {
  }

  lemma ReadDate(t: int, rest: string)
    requires 0 <= Year(t) <= 9999
    ensures |DateText(t)| == 8
    ensures DateOf(DateText(t) + rest) == Some((Year(t), Month(t), Day(t)))
  {
    hide Year, Month, Day, MonthLength, Pad, TwoAt, DigitChar;
    var y, m, d := Year(t), Month(t), Day(t);
    var date := DateText(t);
    PadFour(y);
    PadTwo(m);
    PadTwo(d);
    YearHalves(y);
    assert |date| == 8;
    var s := date + rest;
    assert s[..8] == date;
    TwoAtDigits(s, 0, y / 100);
    TwoAtDigits(s, 2, y % 100);
    TwoAtDigits(s, 4, m);
    TwoAtDigits(s, 6, d);
    DayExists(t);
  }

  lemma ReadStamp(u: Instant)
    requires FourDigitYear(u)
    ensures ParseStamp(FormatStamp(u)) == Some(Instant(u.sec, 0))
  {
    hide Year, Month, Day, Hour, Minute, Second, Date, DateOf, Pad, TwoAt, DateText;
    var t := u.sec;
    var h, m, s := Pad(Hour(t), 2), Pad(Minute(t), 2), Pad(Second(t), 2);
    var text, date := FormatStamp(u), DateText(t);
    assert date == Pad(Year(t), 4) + Pad(Month(t), 2) + Pad(Day(t), 2) by { IsDateText(t); }
    ReadDate(t, "T" + h + m + s + "Z");
    assert text == date + ("T" + h + m + s + "Z");
    TwoAtPad(date + "T", Hour(t), m + s + "Z");
    assert text == (date + "T") + h + (m + s + "Z");
    TwoAtPad(date + "T" + h, Minute(t), s + "Z");
    assert text == (date + "T" + h) + m + (s + "Z");
    TwoAtPad(date + "T" + h + m, Second(t), "Z");
    assert text == (date + "T" + h + m) + s + "Z";
    assert |text| == 16 && text[8] == 'T' && text[15..] == "Z" && text[15] == 'Z';
    DateRoundTrip(t);
  }

  lemma IsDateText(t: int)
    requires 0 <= Year(t) <= 9999
    ensures DateText(t) == Pad(Year(t), 4) + Pad(Month(t), 2) + Pad(Day(t), 2)
  {
  }

  /** A year outside 0..9999 prints as something neither layout accepts. */
  lemma OddYearUnreadable(u: Instant)
    requires !FourDigitYear(u)
    ensures ParseUntil(FormatStamp(u)).None?
  {
    hide Year, Month, Day, Hour, Minute, Second, Pad, DateOf;
    var t, text := u.sec, FormatStamp(u);
    var rest := Pad(Month(t), 2) + Pad(Day(t), 2) + "T" + Pad(Hour(t), 2) + Pad(Minute(t), 2) + Pad(Second(t), 2) + "Z";
    assert text == FormatYear(Year(t)) + rest;
    if Year(t) < 0 {
      assert text[0] == '-';
      NotADate(text);
    } else {
      LongYear(Year(t));
      var front := Pad(Year(t), 4) + Pad(Month(t), 2) + Pad(Day(t), 2);
      assert text == front + ("T" + Pad(Hour(t), 2) + Pad(Minute(t), 2) + Pad(Second(t), 2) + "Z");
      assert text[8] == front[8] && IsDigit(front[8]);
    }
  }

  lemma NotADate(s: string)
    requires s != "" && s[0] == '-'
    ensures DateOf(s).None?
  {
    assert TwoAt(s, 0).None?;
  }

  lemma LongYear(y: int)
    requires y >= 10000
    ensures |Pad(y, 4)| >= 5
  {
    LongNumber(y);
  }

  /** Reading back a printed UNTIL. */
  lemma ReadUntil(u: Instant)
    ensures ParseUntil(FormatStamp(u)) == if FourDigitYear(u) then Some(Instant(u.sec, 0)) else None
  {
    hide FormatStamp, ParseStamp, ParseDay, FourDigitYear;
    if FourDigitYear(u) { ReadStamp(u); } else { OddYearUnreadable(u); }
  }

  // ----- names -----

  lemma FreqNames(f: Freq)
    ensures FreqFromName(FreqName(f)) == Some(f)
  {
    assert "WEEKLY"[0] == 'W' && "YEARLY"[0] == 'Y';
  }

  lemma DayNames(d: DayOfWeek)
    ensures DayFromName(TrimSpace(DayAbbrev(d))) == Some(d)
    ensures ',' !in DayAbbrev(d) && ';' !in DayAbbrev(d)
  {
    var s := DayAbbrev(d);
    assert |s| == 2 && 'A' <= s[0] <= 'Z' && 'A' <= s[1] <= 'Z';
    assert TrimSpace(s) == s;
    var c := s[0] as int * 256 + s[1] as int;
    assert "SU"[0] == 'S' && "SU"[1] == 'U' && "MO"[0] == 'M' && "TU"[0] == 'T' && "TU"[1] == 'U'
        && "WE"[0] == 'W' && "TH"[0] == 'T' && "TH"[1] == 'H' && "FR"[0] == 'F' && "SA"[0] == 'S' && "SA"[1] == 'A';
  }

  lemma {:induction false} ReadDays(names: seq<string>, days: seq<DayOfWeek>, acc: seq<DayOfWeek>)
    requires names == DayList(days)
    ensures RRule.AddDays(names, acc) == Ok(acc + days)
  {
    hide DayFromName, TrimSpace, DayAbbrev;
    if days == [] {
      assert acc + days == acc;
    } else {
      DayNames(days[0]);
      assert names[1..] == DayList(days[1..]);
      ReadDays(names[1..], days[1..], acc + [days[0]]);
      assert acc + [days[0]] + days[1..] == acc + days;
    }
  }

  lemma ReadByDay(days: seq<DayOfWeek>, acc: seq<DayOfWeek>)
    requires |days| > 0
    ensures RRule.AddDays(Split(Join(DayList(days), ','), ','), acc) == Ok(acc + days)
  {
    hide DayFromName, TrimSpace, DayAbbrev, Split, Join;
    forall i | 0 <= i < |days| ensures ',' !in DayList(days)[i] { DayNames(days[i]); }
    SplitJoin(DayList(days), ',');
    ReadDays(DayList(days), days, acc);
  }

  lemma KeysDiffer()
    ensures "INTERVAL" != "FREQ" && "BYDAY" != "FREQ" && "BYMONTHDAY" != "FREQ" && "COUNT" != "FREQ"
            && "UNTIL" != "FREQ"
    ensures "BYDAY" != "INTERVAL" && "BYMONTHDAY" != "INTERVAL" && "COUNT" != "INTERVAL" && "UNTIL" != "INTERVAL"
    ensures "BYMONTHDAY" != "BYDAY" && "COUNT" != "BYDAY" && "UNTIL" != "BYDAY"
    ensures "COUNT" != "BYMONTHDAY" && "UNTIL" != "BYMONTHDAY" && "UNTIL" != "COUNT"
  {
    assert "BYDAY"[0] == 'B' && "COUNT"[0] == 'C' && "UNTIL"[0] == 'U';
  }

  lemma ReadField(p: Progress, key: string, val: string)
    requires '=' !in key
    ensures ReadParts([Field(key, val)], Ok(p)) == Assign(p, key, val)
  {
    hide Assign, Cut;
    CutAt(key, '=', val);
    assert Field(key, val) == key + ['='] + val;
    var part := [Field(key, val)];
    assert part[1..] == [];
    assert ReadParts(part[1..], ReadPart(p, part[0])) == ReadPart(p, part[0]);
  }

  lemma {:induction false} ReadAppend(a: seq<string>, b: seq<string>, p: Result<Progress>)
    ensures ReadParts(a + b, p) == ReadParts(b, ReadParts(a, p))
    decreases |a|
  {
    hide ReadPart;
    if a == [] {
      assert a + b == b;
    } else if p.Ok? {
      assert (a + b)[1..] == a[1..] + b;
      ReadAppend(a[1..], b, ReadPart(p.value, a[0]));
    }
  }

  // ----- reading back what String prints -----

  /** Every value a rule of Go ints can be read back from: String drops what is not positive. */
  predicate Legible(r: Rule) {
    r.interval <= MAX_INT && r.byMonthDay <= 31 && r.count <= MAX_INT
    && (r.until.Some? ==> FourDigitYear(r.until.value))
  }

  /** The rule that is read back. */
  function Reread(r: Rule): Rule {
    Rule(r.freq,
         if r.interval > 1 then r.interval else 1,
         r.byDay,
         if r.byMonthDay > 0 then r.byMonthDay else 0,
         if r.count > 0 then r.count else 0,
         if r.until.Some? then Some(Instant(r.until.value.sec, 0)) else None)
  }

  /** What is read from the first lines of String: the fields so far, the rest at their defaults. */
  function Half(r: Rule, i: nat): Rule {
    var q := Reread(r);
    Rule(q.freq, if i >= 1 then q.interval else 1, if i >= 2 then q.byDay else [],
         if i >= 3 then q.byMonthDay else 0, if i >= 4 then q.count else 0, if i >= 5 then q.until else None)
  }

  /** Line i of String can be read back. */
  predicate LegibleLine(r: Rule, i: nat) {
    (i == 1 ==> r.interval <= MAX_INT) && (i == 3 ==> r.byMonthDay <= 31) && (i == 4 ==> r.count <= MAX_INT)
    && (i == 5 && r.until.Some? ==> FourDigitYear(r.until.value))
  }

  lemma ReadLine(r: Rule, i: nat)
    requires 1 <= i <= 5
    ensures LineReads(r, i)
  {
    hide LineReads, Part;
    if i == 1 { ReadInterval(r); }
    else if i == 2 { ReadDayLine(r); }
    else if i == 3 { ReadMonthDay(r); }
    else if i == 4 { ReadCount(r); }
    else { ReadUntilLine(r); }
  }

  /** Reading the part of line i, on what the lines before it gave, fills in that line's field. */
  predicate LineReads(r: Rule, i: nat)
    requires 1 <= i <= 5
  {
    var after := ReadParts(Part(r, i), Ok(Progress(Half(r, i - 1), true)));
    if LegibleLine(r, i) then after == Ok(Progress(Half(r, i), true)) else after.Err?
  }

  lemma ReadInterval(r: Rule)
    ensures LineReads(r, 1)
  {
    hide Atoi, Digits, Field;
    if r.interval > 1 {
      KeysDiffer();
      ReadField(Progress(Half(r, 0), true), "INTERVAL", Digits(r.interval));
      AtoiDigits(r.interval);
    }
  }

  lemma ReadDayLine(r: Rule)
    ensures LineReads(r, 2)
  {
    hide Join, Split, RRule.AddDays, Field, Atoi, ParseUntil, FreqFromName;
    if |r.byDay| > 0 {
      KeysDiffer();
      ReadField(Progress(Half(r, 1), true), "BYDAY", Join(DayList(r.byDay), ','));
      ReadByDay(r.byDay, []);
      assert [] + r.byDay == r.byDay;
    }
  }

  lemma ReadMonthDay(r: Rule)
    ensures LineReads(r, 3)
  {
    hide Atoi, Digits, Field, ParseUntil, FreqFromName, RRule.AddDays;
    if r.byMonthDay > 0 {
      KeysDiffer();
      ReadField(Progress(Half(r, 2), true), "BYMONTHDAY", Digits(r.byMonthDay));
      AtoiDigits(r.byMonthDay);
    }
  }

  lemma ReadCount(r: Rule)
    ensures LineReads(r, 4)
  {
    hide Atoi, Digits, Field, ParseUntil, FreqFromName, RRule.AddDays;
    if r.count > 0 {
      KeysDiffer();
      ReadField(Progress(Half(r, 3), true), "COUNT", Digits(r.count));
      AtoiDigits(r.count);
    }
  }

  lemma ReadUntilLine(r: Rule)
    ensures LineReads(r, 5)
  {
    hide FormatStamp, ParseUntil, FourDigitYear, Field, Atoi, FreqFromName, RRule.AddDays;
    if r.until.Some? {
      KeysDiffer();
      ReadField(Progress(Half(r, 4), true), "UNTIL", FormatStamp(r.until.value));
      ReadUntil(r.until.value);
    }
  }

  lemma ReadFirstLine(r: Rule)
    ensures ReadParts(PartsUpTo(r, 0), Ok(Progress(DEFAULTS, false))) == Ok(Progress(Half(r, 0), true))
  {
    hide FreqFromName, FreqName, Field;
    ReadField(Progress(DEFAULTS, false), "FREQ", FreqName(r.freq));
    FreqNames(r.freq);
  }

  predicate LegibleLines(r: Rule, i: nat) {
    forall j :: 1 <= j <= i ==> LegibleLine(r, j)
  }

  lemma {:induction false} ReadLines(r: Rule, i: nat)
    requires i <= 5
    ensures var after := ReadParts(PartsUpTo(r, i), Ok(Progress(DEFAULTS, false)));
            if LegibleLines(r, i) then after == Ok(Progress(Half(r, i), true)) else after.Err?
  {
    hide Part, Half, LegibleLine, ReadParts;
    if i == 0 {
      ReadFirstLine(r);
    } else {
      ReadLines(r, i - 1);
      ReadAppend(PartsUpTo(r, i - 1), Part(r, i), Ok(Progress(DEFAULTS, false)));
      ReadLine(r, i);
      var before := ReadParts(PartsUpTo(r, i - 1), Ok(Progress(DEFAULTS, false)));
      if before.Err? { ErrorStays(Part(r, i), before); }
    }
  }

  lemma ErrorStays(parts: seq<string>, p: Result<Progress>)
    requires p.Err?
    ensures ReadParts(parts, p) == p
  {
    hide ReadPart;
  }

  // ----- no part holds the separator -----

  lemma DigitsOnly(s: string, c: char)
    requires AllDigits(s) && !IsDigit(c)
    ensures c !in s
  {
  }

  lemma StampHasNoSemicolon(u: Instant)
    ensures ';' !in FormatStamp(u)
  {
    hide Year, Month, Day, Hour, Minute, Second, Pad;
    var t := u.sec;
    DigitsOnly(Pad(Month(t), 2), ';');
    DigitsOnly(Pad(Day(t), 2), ';');
    DigitsOnly(Pad(Hour(t), 2), ';');
    DigitsOnly(Pad(Minute(t), 2), ';');
    DigitsOnly(Pad(Second(t), 2), ';');
    DigitsOnly(if Year(t) < 0 then Pad(-Year(t), 4) else Pad(Year(t), 4), ';');
  }

  lemma {:induction false} JoinHasNoSemicolon(parts: seq<string>)
    requires forall i :: 0 <= i < |parts| ==> ';' !in parts[i]
    ensures ';' !in Join(parts, ',')
  {
    if |parts| > 1 { JoinHasNoSemicolon(parts[1..]); }
  }

  lemma PartHasNoSemicolon(r: Rule, i: nat)
    ensures forall p :: p in Part(r, i) ==> ';' !in p
  {
    hide Digits, FormatStamp, Join, DayAbbrev;
    if i == 1 && r.interval > 1 { DigitsOnly(Digits(r.interval), ';'); }
    if i == 2 {
      forall j | 0 <= j < |r.byDay| ensures ';' !in DayList(r.byDay)[j] { DayNames(r.byDay[j]); }
      JoinHasNoSemicolon(DayList(r.byDay));
    }
    if i == 3 && r.byMonthDay > 0 { DigitsOnly(Digits(r.byMonthDay), ';'); }
    if i == 4 && r.count > 0 { DigitsOnly(Digits(r.count), ';'); }
    if i == 5 && r.until.Some? { StampHasNoSemicolon(r.until.value); }
  }

  lemma {:induction false} PartsHaveNoSemicolon(r: Rule, i: nat)
    ensures forall p :: p in PartsUpTo(r, i) ==> ';' !in p
  {
    hide Part;
    PartHasNoSemicolon(r, i);
    if i > 0 { PartsHaveNoSemicolon(r, i - 1); }
  }

  lemma {:induction false} JoinStarts(parts: seq<string>, c: char)
    requires |parts| >= 1 && parts[0] != ""
    ensures Join(parts, c) != ""
  {
  }

  lemma {:induction false} FirstPart(r: Rule, i: nat)
    ensures PartsUpTo(r, i)[0] == Field("FREQ", FreqName(r.freq))
  {
    hide Field, FreqName;
    if i > 0 {
      hide Part;
      FirstPart(r, i - 1);
    }
  }

  /** Parse after String: the readable rule comes back, and any other is refused. */
  lemma PrintThenParse(r: Rule)
    ensures if Legible(r) then Parsed(Printed(r)) == Ok(Reread(r)) else Parsed(Printed(r)).Err?
  {
    hide PartsUpTo, Join, Split, ReadParts, FourDigitYear;
    var parts := PartsUpTo(r, 5);
    PartsHaveNoSemicolon(r, 5);
    SplitJoin(parts, ';');
    FirstPart(r, 5);
    JoinStarts(parts, ';');
    ReadLines(r, 5);
    assert LegibleLines(r, 5) <==> Legible(r) by {
      assert LegibleLine(r, 1) && LegibleLine(r, 3) && LegibleLine(r, 4) && LegibleLine(r, 5) <==> Legible(r);
    }
  }

  /** The exact condition under which a rule survives printing and parsing. */
  predicate Printable(r: Rule) {
    && 1 <= r.interval <= MAX_INT && 0 <= r.byMonthDay <= 31 && 0 <= r.count <= MAX_INT
    && (r.until.Some? ==> r.until.value.nano == 0 && FourDigitYear(r.until.value))
  }

  /** Parse(String(r)) = r holds for exactly the printable rules. */
  lemma RoundTripIff(r: Rule)
    ensures Parsed(Printed(r)) == Ok(r) <==> Printable(r)
  {
    hide Printed, Parsed, FourDigitYear;
    PrintThenParse(r);
  }

  // ----- what Parse accepts -----

  /** All that Parse guarantees: the printable rules, but for a fraction in UNTIL. */
  predicate Accepted(r: Rule) {
    WellFormed(r) && Legible(r)
  }

  lemma {:induction false} DateOfYear(s: string)
    requires DateOf(s).Some?
    ensures var (y, m, d) := DateOf(s).value; 0 <= y <= 9999 && 1 <= m <= 12 && 1 <= d <= MonthLength(y, m - 1)
  {
  }

  lemma StampYear(y: int, m: int, d: int, h: int, min: int, sec: int)
    requires 1 <= m <= 12 && 1 <= d <= MonthLength(y, m - 1)
    requires 0 <= h < 24 && 0 <= min < 60 && 0 <= sec < 60
    ensures Year(Date(y, m, d, h, min, sec)) == y
  {
    hide MonthOf, DayOf, MonthStart, MonthLength;
    var mi := 12 * y + m - 1;
    CivilRoundTrip(mi, d);
    ShiftDays(h * 3600 + min * 60 + sec, MonthStart(mi) + d - 1);
  }

  lemma ParsedUntilYear(s: string)
    requires ParseUntil(s).Some?
    ensures FourDigitYear(ParseUntil(s).value)
  {
    hide DateOf, TwoAt, Date, Year, Fraction, MonthLength;
    DateOfYear(s);
    var (y, m, d) := DateOf(s).value;
    StampYear(y, m, d, 0, 0, 0);
    if ParseStamp(s).Some? {
      StampYear(y, m, d, TwoAt(s, 9).value, TwoAt(s, 11).value, TwoAt(s, 13).value);
    }
  }

  lemma AtoiRange(s: string)
    requires Atoi(s).Some?
    ensures Atoi(s).value <= MAX_INT
  {
    hide NatOf, AllDigits;
  }

  lemma AssignAccepts(p: Progress, key: string, val: string)
    requires Accepted(p.rule) && Assign(p, key, val).Ok?
    ensures Accepted(Assign(p, key, val).value.rule)
  {
    hide Atoi, ParseUntil, FourDigitYear, RRule.AddDays, Split, FreqFromName;
    if Atoi(val).Some? { AtoiRange(val); }
    if ParseUntil(val).Some? { ParsedUntilYear(val); }
  }

  lemma {:induction false} ReadPartsAccepts(parts: seq<string>, p: Result<Progress>)
    requires p.Ok? ==> Accepted(p.value.rule)
    ensures ReadParts(parts, p).Ok? ==> Accepted(ReadParts(parts, p).value.rule)
    decreases |parts|
  {
    hide Assign, Accepted, Cut;
    if parts != [] && p.Ok? {
      var next := ReadPart(p.value, parts[0]);
      if next.Ok? {
        var kv := Cut(parts[0], '=').value;
        AssignAccepts(p.value, kv.0, kv.1);
      }
      ReadPartsAccepts(parts[1..], next);
    }
  }

  /** Every accepted string gives a well-formed rule that String can print legibly. */
  lemma ParseAccepts(s: string)
    requires Parsed(s).Ok?
    ensures Accepted(Parsed(s).value)
  {
    hide Accepted, Split, ReadParts;
    assert Accepted(DEFAULTS) by { DefaultsAccepted(); }
    ReadPartsAccepts(Split(s, ';'), Ok(Progress(DEFAULTS, false)));
  }

  lemma DefaultsAccepted()
    ensures Accepted(DEFAULTS)
  {
  }

  /**
    Printing an accepted rule and parsing it again gives the same rule up to the
    fraction of UNTIL, so the very same rule when UNTIL is whole seconds.
  */
  lemma ParseThenPrint(s: string)
    requires Parsed(s).Ok?
    ensures var r := Parsed(s).value;
            && Parsed(Printed(r)) == Ok(Reread(r))
            && Reread(r) == r.(until := if r.until.Some? then Some(Instant(r.until.value.sec, 0)) else None)
            && ((r.until.Some? ==> r.until.value.nano == 0) ==> Parsed(Printed(r)) == Ok(r))
  {
    hide Printed, Parsed, FourDigitYear;
    ParseAccepts(s);
    PrintThenParse(Parsed(s).value);
  }
}
