/** The string routines the rule parser and printer call, with their round trips. */
module Text {
  import opened Wrappers

  const MAX_INT := 0x7fff_ffff_ffff_ffff

  predicate IsDigit(c: char) { '0' <= c <= '9' }

  function DigitValue(c: char): (d: nat)
    requires IsDigit(c)
    ensures d < 10
  {
    c as int - '0' as int
  }

  function DigitChar(d: int): (c: char)
    requires 0 <= d < 10
    ensures IsDigit(c) && DigitValue(c) == d
  {
    ('0' as int + d) as char
  }

  predicate AllDigits(s: string) {
    forall i :: 0 <= i < |s| ==> IsDigit(s[i])
  }

  /** The number a row of digits stands for. */
  function NatOf(s: string): nat
    requires AllDigits(s)
  {
    if s == "" then 0 else 10 * NatOf(s[..|s| - 1]) + DigitValue(s[|s| - 1])
  }

  /** Decimal digits without leading zeros. */
  function Digits(n: nat): (s: string)
    ensures |s| >= 1 && AllDigits(s)
  {
    if n < 10 then [DigitChar(n)] else Digits(n / 10) + [DigitChar(n % 10)]
  }

  /** Decimal digits, filled up with zeros on the left to a width. */
  function Pad(n: nat, width: nat): (s: string)
    ensures AllDigits(s) && |s| >= width
  {
    var d := Digits(n);
    if |d| >= width then d else seq(width - |d|, i => '0') + d
  }

  lemma {:induction false} DigitsRoundTrip(n: nat)
    ensures NatOf(Digits(n)) == n
  {
    if n >= 10 {
      DigitsRoundTrip(n / 10);
      var s := Digits(n / 10);
      assert (s + [DigitChar(n % 10)])[..|s|] == s;
    } else {
      assert NatOf([DigitChar(n)][..0]) == 0;
    }
  }

  lemma PadTwo(n: nat)
    requires n < 100
    ensures Pad(n, 2) == [DigitChar(n / 10), DigitChar(n % 10)]
  {
    if n >= 10 {
      assert Digits(n) == [DigitChar(n / 10)] + [DigitChar(n % 10)];
    } else {
      assert Pad(n, 2) == ['0'] + [DigitChar(n)];
    }
  }

  /** Padding a number of at least ten pads its front and appends the last digit. */
  lemma PadMore(n: nat, width: nat)
    requires n >= 10 && width >= 1
    ensures Pad(n, width) == Pad(n / 10, width - 1) + [DigitChar(n % 10)]
  {
    var d := Digits(n / 10);
    assert Digits(n) == d + [DigitChar(n % 10)];
    if |d| + 1 < width {
      var zeros := seq(width - 1 - |d|, i => '0');
      assert zeros + (d + [DigitChar(n % 10)]) == zeros + d + [DigitChar(n % 10)];
    }
  }

  lemma PadDigit(n: nat, width: nat)
    requires n < 10 && 1 <= width <= 4
    ensures Pad(n, width) == seq(width - 1, i => '0') + [DigitChar(n)]
  {
  }

  lemma PadThree(n: nat)
    requires n < 1000
    ensures Pad(n, 3) == [DigitChar(n / 100), DigitChar(n / 10 % 10), DigitChar(n % 10)]
  {
    hide Pad, Digits;
    if n >= 10 {
      PadMore(n, 3);
      PadTwo(n / 10);
      DropDigit(n);
    } else {
      PadDigit(n, 3);
    }
  }

  lemma PadFour(n: nat)
    requires n < 10000
    ensures Pad(n, 4) == [DigitChar(n / 1000), DigitChar(n / 100 % 10), DigitChar(n / 10 % 10), DigitChar(n % 10)]
  {
    hide Pad, Digits;
    if n >= 10 {
      PadMore(n, 4);
      PadThree(n / 10);
      DropDigit(n);
    } else {
      PadDigit(n, 4);
    }
  }

  lemma DropDigit(n: nat)
    ensures n / 10 / 10 == n / 100 && n / 10 / 100 == n / 1000
  {
  }

  lemma OneMoreDigit(n: nat)
    requires n >= 10
    ensures |Digits(n)| == |Digits(n / 10)| + 1
  {
  }

  lemma LongNumber(n: nat)
    requires n >= 10000
    ensures |Digits(n)| >= 5
  {
    hide Digits;
    OneMoreDigit(n);
    OneMoreDigit(n / 10);
    OneMoreDigit(n / 10 / 10);
    OneMoreDigit(n / 10 / 10 / 10);
  }

  /** Different numbers print differently. */
  lemma DigitsInjective(a: nat, b: nat)
    requires Digits(a) == Digits(b)
    ensures a == b
  {
    DigitsRoundTrip(a);
    DigitsRoundTrip(b);
  }

  // ----- strconv.Atoi -----

  function AtoiNat(s: string): Option<int> {
    if s == "" || !AllDigits(s) then None else Some(NatOf(s))
  }

  /** An optional sign, then at least one digit, within the 64-bit range. */
  function Atoi(s: string): Option<int> {
    var negative := s != "" && s[0] == '-';
    var digits := if s != "" && (s[0] == '-' || s[0] == '+') then s[1..] else s;
    match AtoiNat(digits)
    case None => None
    case Some(n) =>
      if negative then (if n > MAX_INT + 1 then None else Some(-n))
      else if n > MAX_INT then None else Some(n)
  }

  lemma AtoiDigits(n: nat)
    ensures Atoi(Digits(n)) == if n <= MAX_INT then Some(n) else None
  {
    DigitsRoundTrip(n);
    assert IsDigit(Digits(n)[0]);
  }

  // ----- strings.Split, strings.Join and the cut at the first separator -----

  function IndexOf(s: string, c: char): (i: nat)
    ensures i <= |s| && c !in s[..i] && (i < |s| ==> s[i] == c)
  {
    if s == "" then 0
    else if s[0] == c then 0
    else
      var j := IndexOf(s[1..], c);
      assert s[..j + 1] == [s[0]] + s[1..][..j];
      j + 1
  }

  lemma {:induction false} IndexOfIs(a: string, c: char, b: string)
    requires c !in a
    ensures IndexOf(a + [c] + b, c) == |a|
    ensures (a + [c] + b)[..|a|] == a && (a + [c] + b)[|a| + 1..] == b
  {
    if a != "" {
      IndexOfIs(a[1..], c, b);
      assert (a + [c] + b)[1..] == a[1..] + [c] + b;
    }
  }

  lemma {:induction false} IndexOfNone(a: string, c: char)
    requires c !in a
    ensures IndexOf(a, c) == |a|
  {
    if a != "" { IndexOfNone(a[1..], c); }
  }

  function Split(s: string, c: char): (parts: seq<string>)
    ensures |parts| >= 1
    decreases |s|
  {
    var i := IndexOf(s, c);
    if i == |s| then [s] else [s[..i]] + Split(s[i + 1..], c)
  }

  function Join(parts: seq<string>, c: char): string {
    if |parts| == 0 then ""
    else if |parts| == 1 then parts[0]
    else parts[0] + [c] + Join(parts[1..], c)
  }

  lemma {:induction false} SplitJoin(parts: seq<string>, c: char)
    requires |parts| >= 1 && forall i :: 0 <= i < |parts| ==> c !in parts[i]
    ensures Split(Join(parts, c), c) == parts
  {
    if |parts| == 1 {
      IndexOfNone(parts[0], c);
    } else {
      IndexOfIs(parts[0], c, Join(parts[1..], c));
      SplitJoin(parts[1..], c);
    }
  }

  /** strings.SplitN(s, c, 2): the text before and after the first separator, if there is one. */
  function Cut(s: string, c: char): Option<(string, string)> {
    var i := IndexOf(s, c);
    if i == |s| then None else Some((s[..i], s[i + 1..]))
  }

  lemma CutAt(key: string, c: char, val: string)
    requires c !in key
    ensures Cut(key + [c] + val, c) == Some((key, val))
  {
    IndexOfIs(key, c, val);
  }

  // ----- strings.TrimSpace -----

  predicate IsSpace(c: char) {
    || '\t' <= c <= '\r' || c == ' ' || c == '\U{85}' || c == '\U{A0}' || c == '\U{1680}'
    || '\U{2000}' <= c <= '\U{200A}' || c == '\U{2028}' || c == '\U{2029}' || c == '\U{202F}'
    || c == '\U{205F}' || c == '\U{3000}'
  }

  function TrimLeft(s: string): string {
    if s != "" && IsSpace(s[0]) then TrimLeft(s[1..]) else s
  }

  function TrimRight(s: string): string {
    if s != "" && IsSpace(s[|s| - 1]) then TrimRight(s[..|s| - 1]) else s
  }

  function TrimSpace(s: string): string { TrimRight(TrimLeft(s)) }
}
