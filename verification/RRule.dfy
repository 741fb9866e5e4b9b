/** Parse and String: reading and printing recurrence rules. */
module RRule {
  import opened Wrappers
  import opened Calendar
  import opened Rules
  import opened Text

  // ----- the names the tables hold -----

  function FreqFromName(s: string): Option<Freq> {
    if s == "DAILY" then Some(Daily)
    else if s == "WEEKLY" then Some(Weekly)
    else if s == "MONTHLY" then Some(Monthly)
    else if s == "YEARLY" then Some(Yearly)
    else None
  }

  function FreqName(f: Freq): string {
    match f
    case Daily => "DAILY"
    case Weekly => "WEEKLY"
    case Monthly => "MONTHLY"
    case Yearly => "YEARLY"
  }

  const DAY_NAMES: seq<string> := ["SU", "MO", "TU", "WE", "TH", "FR", "SA"]

  function DayAbbrev(d: DayOfWeek): string { DAY_NAMES[d] }

  function DayFromName(s: string): Option<DayOfWeek> {
    if s == "SU" then Some(0)
    else if s == "MO" then Some(1)
    else if s == "TU" then Some(2)
    else if s == "WE" then Some(3)
    else if s == "TH" then Some(4)
    else if s == "FR" then Some(5)
    else if s == "SA" then Some(6)
    else None
  }

  // ----- time.Parse and Time.Format for the two UNTIL layouts -----

  /** The two-digit number at position i, if there is one. */
  function TwoAt(s: string, i: nat): Option<nat> {
    if i + 2 <= |s| && IsDigit(s[i]) && IsDigit(s[i + 1])
    then Some(10 * DigitValue(s[i]) + DigitValue(s[i + 1])) else None
  }

  /** The date in the first eight characters: four digits, then a month and a day that exist. */
  function DateOf(s: string): Option<(nat, nat, nat)> {
    if TwoAt(s, 0).None? || TwoAt(s, 2).None? || TwoAt(s, 4).None? || TwoAt(s, 6).None? then None
    else
      var year := 100 * TwoAt(s, 0).value + TwoAt(s, 2).value;
      var month, day := TwoAt(s, 4).value, TwoAt(s, 6).value;
      if 1 <= month <= 12 && 1 <= day <= MonthLength(year, month - 1) then Some((year, month, day)) else None
  }

  /** How many characters from i on are digits. */
  function DigitRun(s: string, i: nat): (n: nat)
    requires i <= |s|
    ensures i + n <= |s| && AllDigits(s[i..i + n])
    decreases |s| - i
  {
    if i < |s| && IsDigit(s[i]) then
      var n := DigitRun(s, i + 1);
      assert s[i..i + 1 + n] == [s[i]] + s[i + 1..i + 1 + n];
      n + 1
    else 0
  }

  function Pow10(n: nat): nat { if n == 0 then 1 else 10 * Pow10(n - 1) }

  /** A fraction Go accepts after the seconds though the layout has none: how long it is, and its nanoseconds. */
  function Fraction(s: string, i: nat): (nat, nat)
    requires i <= |s|
  {
    if i + 2 <= |s| && (s[i] == '.' || s[i] == ',') && IsDigit(s[i + 1]) then
      var n := DigitRun(s, i + 1);
      var kept := if n > 9 then 9 else n;
      assert AllDigits(s[i + 1..i + 1 + kept]) by {
        assert s[i + 1..i + 1 + kept] == s[i + 1..i + 1 + n][..kept];
      }
      (n + 1, NatOf(s[i + 1..i + 1 + kept]) * Pow10(9 - kept))
    else (0, 0)
  }

  /** time.Parse("20060102T150405Z", s). */
  function ParseStamp(s: string): Option<Instant> {
    if DateOf(s).None? || |s| < 15 || s[8] != 'T' then None
    else if TwoAt(s, 9).None? || TwoAt(s, 11).None? || TwoAt(s, 13).None? then None
    else
      var (year, month, day) := DateOf(s).value;
      var hour, min, sec := TwoAt(s, 9).value, TwoAt(s, 11).value, TwoAt(s, 13).value;
      var (len, nano) := Fraction(s, 15);
      if hour >= 24 || min >= 60 || sec >= 60 || s[15 + len..] != "Z" then None
      else Some(Instant(Date(year, month, day, hour, min, sec), nano))
  }

  /** time.Parse("20060102", s). */
  function ParseDay(s: string): Option<Instant> {
    if |s| != 8 || DateOf(s).None? then None
    else
      var (year, month, day) := DateOf(s).value;
      Some(Instant(Date(year, month, day, 0, 0, 0), 0))
  }

  function ParseUntil(s: string): Option<Instant> {
    if ParseStamp(s).Some? then ParseStamp(s) else ParseDay(s)
  }

  function FormatYear(y: int): string {
    if y < 0 then "-" + Pad(-y, 4) else Pad(y, 4)
  }

  /** Time.Format("20060102T150405Z"); the fraction is not printed. */
  function FormatStamp(u: Instant): string {
    FormatYear(Year(u.sec)) + Pad(Month(u.sec), 2) + Pad(Day(u.sec), 2) + "T"
    + Pad(Hour(u.sec), 2) + Pad(Minute(u.sec), 2) + Pad(Second(u.sec), 2) + "Z"
  }

  // ----- Parse -----

  /** The rule filled in so far and whether FREQ was seen. */
  datatype Progress = Progress(rule: Rule, hasFreq: bool)

  const DEFAULTS := Rule(Daily, 1, [], 0, 0, None)

  function AddDays(names: seq<string>, days: seq<DayOfWeek>): Result<seq<DayOfWeek>> {
    if names == [] then Ok(days)
    else
      match DayFromName(TrimSpace(names[0]))
      case None => Err("unknown day: " + names[0])
      case Some(d) => AddDays(names[1..], days + [d])
  }

  function Assign(p: Progress, key: string, val: string): Result<Progress> {
    var r := p.rule;
    if key == "FREQ" then
      match FreqFromName(val)
      case None => Err("unknown frequency: " + val)
      case Some(f) => Ok(Progress(r.(freq := f), true))
    else if key == "INTERVAL" then
      if Atoi(val).None? || Atoi(val).value < 1 then Err("invalid interval: " + val)
      else Ok(p.(rule := r.(interval := Atoi(val).value)))
    else if key == "BYDAY" then
      match AddDays(Split(val, ','), r.byDay)
      case Err(e) => Err(e)
      case Ok(days) => Ok(p.(rule := r.(byDay := days)))
    else if key == "BYMONTHDAY" then
      if Atoi(val).None? || Atoi(val).value < 1 || Atoi(val).value > 31 then Err("invalid BYMONTHDAY: " + val)
      else Ok(p.(rule := r.(byMonthDay := Atoi(val).value)))
    else if key == "COUNT" then
      if Atoi(val).None? || Atoi(val).value < 1 then Err("invalid count: " + val)
      else Ok(p.(rule := r.(count := Atoi(val).value)))
    else if key == "UNTIL" then
      if ParseUntil(val).None? then Err("invalid UNTIL: " + val)
      else Ok(p.(rule := r.(until := ParseUntil(val))))
    else Err("unsupported rule key: " + key)
  }

  function ReadPart(p: Progress, part: string): Result<Progress> {
    match Cut(part, '=')
    case None => Err("invalid rule part: " + part)
    case Some((key, val)) => Assign(p, key, val)
  }

  /** Reading parts from left to right; the first error ends it. */
  function ReadParts(parts: seq<string>, p: Result<Progress>): Result<Progress>
    decreases |parts|
  {
    if parts == [] || p.Err? then p else ReadParts(parts[1..], ReadPart(p.value, parts[0]))
  }

  function Finish(p: Result<Progress>): Result<Rule> {
    match p
    case Err(e) => Err(e)
    case Ok(q) => if q.hasFreq then Ok(q.rule) else Err("FREQ is required")
  }

  function Parsed(rule: string): Result<Rule> {
    if rule == "" then Err("empty rule")
    else Finish(ReadParts(Split(rule, ';'), Ok(Progress(DEFAULTS, false))))
  }

  lemma ReadStep(parts: seq<string>, i: nat, p: Progress)
    requires i < |parts|
    ensures ReadParts(parts[i..], Ok(p)) == ReadParts(parts[i + 1..], ReadPart(p, parts[i]))
  {
    hide ReadPart;
    assert parts[i..][1..] == parts[i + 1..];
  }

  lemma ReadAll(parts: seq<string>, p: Result<Progress>)
    requires parts == [] || p.Err?
    ensures ReadParts(parts, p) == p
  {
  }

  method Parse(rule: string) returns (res: Result<Rule>)
    ensures res == Parsed(rule)
  {
    hide ReadParts, Assign, Cut, Split;
    if rule == "" {
      return Err("empty rule");
    }
    var r, hasFreq := DEFAULTS, false;
    var parts := Split(rule, ';');
    var i := 0;
    assert parts[0..] == parts;
    while i < |parts|
      invariant i <= |parts|
      invariant ReadParts(parts[i..], Ok(Progress(r, hasFreq))) == ReadParts(parts, Ok(Progress(DEFAULTS, false)))
    {
      ReadStep(parts, i, Progress(r, hasFreq));
      var kv := Cut(parts[i], '=');
      if kv.None? {
        ReadAll(parts[i + 1..], Err("invalid rule part: " + parts[i]));
        return Err("invalid rule part: " + parts[i]);
      }
      var (key, val) := kv.value;
      var next := SetField(r, hasFreq, key, val);
      if next.Err? {
        ReadAll(parts[i + 1..], Err(next.message));
        return Err(next.message);
      }
      r, hasFreq := next.value.rule, next.value.hasFreq;
      i := i + 1;
    }
    ReadAll(parts[i..], Ok(Progress(r, hasFreq)));
    if !hasFreq {
      return Err("FREQ is required");
    }
    return Ok(r);
  }

  /** The switch over the key of one part. */
  method SetField(rule: Rule, hadFreq: bool, key: string, val: string) returns (next: Result<Progress>)
    ensures next == Assign(Progress(rule, hadFreq), key, val)
  {
    hide Atoi, ParseStamp, ParseDay, Split, AddDays, FreqFromName;
    var r, hasFreq := rule, hadFreq;
    if key == "FREQ" {
      var f := FreqFromName(val);
      if f.None? {
        return Err("unknown frequency: " + val);
      }
      r := r.(freq := f.value);
      hasFreq := true;
    } else if key == "INTERVAL" {
      var n := Atoi(val);
      if n.None? || n.value < 1 {
        return Err("invalid interval: " + val);
      }
      r := r.(interval := n.value);
    } else if key == "BYDAY" {
      var days := AppendDays(r.byDay, Split(val, ','));
      if days.Err? {
        return Err(days.message);
      }
      r := r.(byDay := days.value);
    } else if key == "BYMONTHDAY" {
      var n := Atoi(val);
      if n.None? || n.value < 1 || n.value > 31 {
        return Err("invalid BYMONTHDAY: " + val);
      }
      r := r.(byMonthDay := n.value);
    } else if key == "COUNT" {
      var n := Atoi(val);
      if n.None? || n.value < 1 {
        return Err("invalid count: " + val);
      }
      r := r.(count := n.value);
    } else if key == "UNTIL" {
      var t := ParseStamp(val);
      if t.None? {
        t := ParseDay(val);
        if t.None? {
          return Err("invalid UNTIL: " + val);
        }
      }
      r := r.(until := t);
    } else {
      return Err("unsupported rule key: " + key);
    }
    return Ok(Progress(r, hasFreq));
  }

  /** The inner loop over the names in BYDAY. */
  method AppendDays(byDay: seq<DayOfWeek>, names: seq<string>) returns (days: Result<seq<DayOfWeek>>)
    ensures days == AddDays(names, byDay)
  {
    hide DayFromName, TrimSpace;
    var all := byDay;
    var j := 0;
    while j < |names|
      invariant j <= |names|
      invariant AddDays(names[j..], all) == AddDays(names, byDay)
    {
      assert names[j..][1..] == names[j + 1..];
      var wd := DayFromName(TrimSpace(names[j]));
      if wd.None? {
        return Err("unknown day: " + names[j]);
      }
      all := all + [wd.value];
      j := j + 1;
    }
    return Ok(all);
  }

  // ----- String -----

  function DayList(days: seq<DayOfWeek>): seq<string> {
    seq(|days|, i requires 0 <= i < |days| => DayAbbrev(days[i]))
  }

  function Field(key: string, val: string): string { key + "=" + val }

  /** Each line of String adds a part or nothing. */
  function Part(r: Rule, i: nat): seq<string> {
    if i == 0 then [Field("FREQ", FreqName(r.freq))]
    else if i == 1 then (if r.interval > 1 then [Field("INTERVAL", Digits(r.interval))] else [])
    else if i == 2 then (if |r.byDay| > 0 then [Field("BYDAY", Join(DayList(r.byDay), ','))] else [])
    else if i == 3 then (if r.byMonthDay > 0 then [Field("BYMONTHDAY", Digits(r.byMonthDay))] else [])
    else if i == 4 then (if r.count > 0 then [Field("COUNT", Digits(r.count))] else [])
    else if i == 5 then (if r.until.Some? then [Field("UNTIL", FormatStamp(r.until.value))] else [])
    else []
  }

  /** The parts String has collected after line i; the last is line 5. */
  function PartsUpTo(r: Rule, i: nat): (parts: seq<string>)
    ensures |parts| >= 1
  {
    if i == 0 then Part(r, 0) else PartsUpTo(r, i - 1) + Part(r, i)
  }

  function Printed(r: Rule): string { Join(PartsUpTo(r, 5), ';') }

  method String(r: Rule) returns (s: string)
    ensures s == Printed(r)
  {
    hide Digits, FormatStamp, Join, FreqName;
    var parts := ["FREQ=" + FreqName(r.freq)];
    assert "FREQ=" == "FREQ" + "=";
    assert parts == PartsUpTo(r, 0);
    if r.interval > 1 {
      parts := parts + ["INTERVAL=" + Digits(r.interval)];
      assert "INTERVAL=" == "INTERVAL" + "=";
    }
    assert parts == PartsUpTo(r, 1);
    if |r.byDay| > 0 {
      var days: seq<string> := [];
      for i := 0 to |r.byDay|
        invariant days == DayList(r.byDay[..i])
      {
        days := days + [DayAbbrev(r.byDay[i])];
      }
      assert r.byDay[..|r.byDay|] == r.byDay;
      parts := parts + ["BYDAY=" + Join(days, ',')];
      assert "BYDAY=" == "BYDAY" + "=";
    }
    assert parts == PartsUpTo(r, 2);
    if r.byMonthDay > 0 {
      parts := parts + ["BYMONTHDAY=" + Digits(r.byMonthDay)];
      assert "BYMONTHDAY=" == "BYMONTHDAY" + "=";
    }
    assert parts == PartsUpTo(r, 3);
    if r.count > 0 {
      parts := parts + ["COUNT=" + Digits(r.count)];
      assert "COUNT=" == "COUNT" + "=";
    }
    assert parts == PartsUpTo(r, 4);
    if r.until.Some? {
      parts := parts + ["UNTIL=" + FormatStamp(r.until.value)];
      assert "UNTIL=" == "UNTIL" + "=";
    }
    assert parts == PartsUpTo(r, 5);
    return Join(parts, ';');
  }
}
