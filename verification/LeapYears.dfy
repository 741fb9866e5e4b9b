/**
  Leap years met at equal strides: when all of them are leap and when none is,
  decided by remainders of the first year and the stride.
*/
module LeapYears {
  import opened Calendar

  /** Year number j of a walk from year y in strides of n years. */
  function Stride(y: int, n: int, j: int): int { y + j * n }

  predicate LeapAt(y: int, n: int, j: int) {
    IsLeap(Stride(y, n, j))
  }

  /** From a leap year y, every stride of n years leads to a leap year. */
  predicate AlwaysLeap(y: int, n: int) {
    n % 4 == 0 && ((n % 16 == 0 && y % 16 == 0) || (n % 5 == 0 && y % 5 != 0) || (n % 25 == 0 && y % 25 != 0))
  }

  /** No stride of n years from year y leads to a leap year. */
  predicate NeverLeap(y: int, n: int) {
    || (n % 2 == 0 && y % 2 != 0)
    || (n % 4 == 0 && y % 4 != 0)
    || (n % 200 == 0 && y % 100 == 0 && y % 200 != 0)
    || (n % 400 == 0 && y % 100 == 0 && y % 400 != 0)
  }

  // ----- remainders of a walk -----

  lemma AddMultiple(y: int, k: int, m: int)
    requires m > 0
    ensures (y + m * k) % m == y % m
  {
    var q, r := y / m, y % m;
    assert y + m * k == m * (q + k) + r;
    UniqueRemainder(y + m * k, m, q + k, r);
  }

  /** Strides that are multiples of m keep the remainder modulo m. */
  lemma SameRemainder(y: int, n: int, j: int, m: int)
    requires m > 0 && n % m == 0
    ensures Stride(y, n, j) % m == y % m
  {
    var q := n / m;
    assert n == m * q;
    assert j * n == m * (j * q);
    AddMultiple(y, j * q, m);
  }

  /** A walk from a year met is the same walk, at a coarser stride. */
  lemma StrideOn(y: int, n: int, i: int, l: int, d: int)
    ensures Stride(Stride(y, n, i), d * n, l) == Stride(y, n, i + l * d)
  {
    assert (i + l * d) * n == i * n + l * (d * n);
  }

  lemma Distribute(m: int, q: int, a: int, j: int, p: int, b: int)
    requires m > 0
    ensures Stride(m * q + a, m * p + b, j) % m == Stride(a, b, j) % m
  {
    assert j * (m * p + b) == m * (j * p) + j * b;
    assert Stride(m * q + a, m * p + b, j) == Stride(a, b, j) + m * (q + j * p);
    AddMultiple(Stride(a, b, j), q + j * p, m);
  }

  /** Only the remainders of year and stride count. */
  lemma StrideRemainder(y: int, n: int, j: int, m: int)
    requires m > 0
    ensures Stride(y, n, j) % m == Stride(y % m, n % m, j) % m
  {
    hide Stride;
    Distribute(m, y / m, y % m, j, n / m, n % m);
  }

  /** A walk whose stride is not a multiple of five meets one within five steps. */
  lemma MeetsFive(y: int, n: int) returns (j: int)
    requires n % 5 != 0
    ensures 1 <= j <= 5 && Stride(y, n, j) % 5 == 0
  {
    var a, b := y % 5, n % 5;
    j := if a == 0 then 5
         else if b == 1 then 5 - a
         else if b == 4 then a
         else if b == 2 then (if a < 3 then 2 * a else 2 * a - 5)
         else if a < 2 then 3 else if a < 4 then 3 * a - 5 else 2;
    FiveSteps(a, b, j);
    StrideRemainder(y, n, j, 5);
  }

  lemma FiveSteps(a: int, b: int, j: int)
    requires 0 <= a < 5 && 1 <= b < 5
    requires a == 0 ==> j == 5
    requires a != 0 && b == 1 ==> j == 5 - a
    requires a != 0 && b == 4 ==> j == a
    requires a != 0 && b == 2 ==> j == if a < 3 then 2 * a else 2 * a - 5
    requires a != 0 && b == 3 ==> j == if a < 2 then 3 else if a < 4 then 3 * a - 5 else 2
    ensures 1 <= j <= 5 && Stride(a, b, j) % 5 == 0
  {
    if b == 1 { assert j * b == j; }
    else if b == 2 { assert j * b == 2 * j; }
    else if b == 3 { assert j * b == 3 * j; }
    else { assert j * b == 4 * j; }
  }

  lemma TimesFive(y: int, n: int, j: int)
    requires n % 5 == 0 && y % 5 == 0 && Stride(y / 5, n / 5, j) % 5 == 0
    ensures Stride(y, n, j) % 25 == 0
  {
    var t := Stride(y / 5, n / 5, j);
    assert y == 5 * (y / 5) && n == 5 * (n / 5);
    assert j * n == 5 * (j * (n / 5));
    assert Stride(y, n, j) == 5 * t == 25 * (t / 5);
    UniqueRemainder(Stride(y, n, j), 25, t / 5, 0);
  }

  /** A walk that can meet a multiple of 25 at all meets one within 30 strides. */
  lemma MeetsTwentyFive(y: int, n: int) returns (j: int)
    requires n % 5 == 0 ==> y % 5 == 0
    requires n % 25 == 0 ==> y % 25 == 0
    ensures 1 <= j <= 30 && Stride(y, n, j) % 25 == 0
  {
    hide Stride;
    if n % 25 == 0 {
      j := 1;
      SameRemainder(y, n, 1, 25);
    } else if n % 5 == 0 {
      j := MeetsFive(y / 5, n / 5);
      TimesFive(y, n, j);
    } else {
      j := MeetsFiveTwice(y, n);
    }
  }

  lemma MeetsFiveTwice(y: int, n: int) returns (j: int)
    requires n % 5 != 0
    ensures 1 <= j <= 30 && Stride(y, n, j) % 25 == 0
  {
    hide Stride;
    var i := MeetsFive(y, n);
    var t := Stride(y, n, i);
    var l := MeetsFive(t / 5, n);
    FiveTimes(n);
    TimesFive(t, 5 * n, l);
    StrideOn(y, n, i, l, 5);
    j := i + l * 5;
  }

  lemma FiveTimes(n: int)
    ensures 5 * n % 5 == 0 && 5 * n / 5 == n
  {
    UniqueRemainder(5 * n, 5, n, 0);
  }

  /** The strides after which the remainder modulo 25 comes back. */
  function Period(n: int): (d: int)
    ensures d in {1, 5, 25}
  {
    if n % 25 == 0 then 1 else if n % 5 == 0 then 5 else 25
  }

  lemma PeriodTimes(n: int)
    ensures Period(n) * n % 25 == 0
  {
    if n % 25 == 0 { UniqueRemainder(n, 25, n / 25, 0); }
    else if n % 5 == 0 { UniqueRemainder(5 * n, 25, n / 5, 0); }
    else { UniqueRemainder(25 * n, 25, n, 0); }
  }

  /** Being leap, by prime powers. */
  lemma LeapByFactors(t: int)
    ensures IsLeap(t) <==> t % 4 == 0 && (t % 25 == 0 ==> t % 16 == 0)
  {
    FourByTwentyFive(t);
    if t % 16 == 0 && t % 25 == 0 { SixteenByTwentyFive(t); }
    if t % 400 == 0 {
      UniqueRemainder(t, 25, 16 * (t / 400), 0);
      UniqueRemainder(t, 16, 25 * (t / 400), 0);
    }
  }

  lemma FourByTwentyFive(t: int)
    ensures t % 100 == 0 <==> t % 4 == 0 && t % 25 == 0
  {
    if t % 100 == 0 {
      UniqueRemainder(t, 25, 4 * (t / 100), 0);
      UniqueRemainder(t, 4, 25 * (t / 100), 0);
    }
    if t % 4 == 0 && t % 25 == 0 { UniqueRemainder(t, 100, t / 4 - 6 * (t / 25), 0); }
  }

  lemma SixteenByTwentyFive(t: int)
    requires t % 16 == 0 && t % 25 == 0
    ensures t % 400 == 0
  {
    UniqueRemainder(t, 400, 11 * (t / 25) - 7 * (t / 16), 0);
  }

  lemma AlwaysLeapHolds(y: int, n: int, j: int)
    requires IsLeap(y) && AlwaysLeap(y, n)
    ensures LeapAt(y, n, j)
  {
    hide Stride, IsLeap;
    LeapByFactors(y);
    LeapByFactors(Stride(y, n, j));
    SameRemainder(y, n, j, 4);
    if n % 16 == 0 && y % 16 == 0 {
      SameRemainder(y, n, j, 16);
    } else {
      AvoidsTwentyFive(y, n, j);
    }
  }

  lemma AvoidsTwentyFive(y: int, n: int, j: int)
    requires (n % 5 == 0 && y % 5 != 0) || (n % 25 == 0 && y % 25 != 0)
    ensures Stride(y, n, j) % 25 != 0
  {
    hide Stride;
    var t := Stride(y, n, j);
    if n % 25 == 0 && y % 25 != 0 {
      SameRemainder(y, n, j, 25);
    } else {
      SameRemainder(y, n, j, 5);
      if t % 25 == 0 { UniqueRemainder(t, 5, 5 * (t / 25), 0); }
    }
  }

  /** Otherwise two multiples of 100 would be leap a stride apart that is no multiple of 16. */
  lemma AlwaysLeapFails(y: int, n: int) returns (j: int)
    requires IsLeap(y) && !AlwaysLeap(y, n)
    ensures 1 <= j <= 55 && !LeapAt(y, n, j)
  {
    hide Stride, IsLeap, Period;
    LeapByFactors(y);
    if n % 4 != 0 {
      j := 1;
      StrideRemainder(y, n, 1, 4);
      OneStride(y % 4, n % 4);
      LeapByFactors(Stride(y, n, 1));
    } else {
      var i := MeetsTwentyFive(y, n);
      var t, d := Stride(y, n, i), Period(n);
      PeriodTimes(n);
      LeapByFactors(t);
      LeapByFactors(Stride(y, n, i + d));
      StrideOn(y, n, i, 1, d);
      SameRemainder(t, d * n, 1, 25);
      j := if IsLeap(t) then i + d else i;
      if IsLeap(t) {
        if t % 16 == 0 && Stride(y, n, i + d) % 16 == 0 {
          NextSixteen(t, n, d);
          SameRemainder(y, n, i, 16);
          assert false;
        }
      }
    }
  }

  lemma OneStride(y: int, n: int)
    ensures Stride(y, n, 1) == y + n
  {
  }

  lemma NextSixteen(t: int, n: int, d: int)
    requires d in {1, 5, 25} && t % 16 == 0 && Stride(t, d * n, 1) % 16 == 0
    ensures n % 16 == 0
  {
    var c := Stride(t, d * n, 1) / 16 - t / 16;
    assert d * n == 16 * c;
    if d == 5 {
      UniqueRemainder(n, 16, 13 * c - 4 * n, 0);
    } else if d == 25 {
      UniqueRemainder(n, 16, 9 * c - 14 * n, 0);
    }
  }

  /** From a leap year, all years met are leap exactly under that condition; 55 strides decide it. */
  lemma AlwaysLeapIff(y: int, n: int)
    requires IsLeap(y)
    ensures AlwaysLeap(y, n) <==> forall j: int :: 1 <= j ==> LeapAt(y, n, j)
    ensures AlwaysLeap(y, n) <==> forall j: int :: 1 <= j <= 55 ==> LeapAt(y, n, j)
  {
    hide LeapAt;
    if AlwaysLeap(y, n) {
      forall j: int ensures LeapAt(y, n, j) { AlwaysLeapHolds(y, n, j); }
    } else {
      var j := AlwaysLeapFails(y, n);
    }
  }

  // ----- meeting no leap year -----

  lemma NeverLeapHolds(y: int, n: int, j: int)
    requires NeverLeap(y, n)
    ensures !LeapAt(y, n, j)
  {
    hide Stride, IsLeap;
    var t := Stride(y, n, j);
    LeapByHundreds(t);
    if n % 2 == 0 && y % 2 != 0 {
      SameRemainder(y, n, j, 2);
    } else if n % 4 == 0 && y % 4 != 0 {
      SameRemainder(y, n, j, 4);
    } else {
      CenturyStride(y, n, j);
    }
  }

  lemma CenturyStride(y: int, n: int, j: int)
    requires y % 100 == 0
    requires (n % 200 == 0 && y % 200 != 0) || (n % 400 == 0 && y % 400 != 0)
    ensures Stride(y, n, j) % 100 == 0 && Stride(y, n, j) % 400 != 0
  {
    hide Stride;
    Parts(n);
    SameRemainder(y, n, j, 100);
    if n % 400 == 0 && y % 400 != 0 {
      SameRemainder(y, n, j, 400);
    } else {
      SameRemainder(y, n, j, 200);
      Parts(Stride(y, n, j));
    }
  }

  lemma LeapByHundreds(t: int)
    ensures IsLeap(t) ==> t % 2 == 0 && t % 4 == 0
    ensures t % 100 == 0 ==> (IsLeap(t) <==> t % 400 == 0)
    ensures t % 400 == 0 ==> t % 200 == 0
  {
    FourByTwentyFive(t);
    if t % 4 == 0 { UniqueRemainder(t, 2, 2 * (t / 4), 0); }
    if t % 400 == 0 { UniqueRemainder(t, 200, 2 * (t / 400), 0); }
  }

  lemma Parts(n: int)
    ensures n % 400 == 0 ==> n % 200 == 0
    ensures n % 200 == 0 ==> n % 100 == 0
    ensures n % 100 == 0 ==> n % 4 == 0
  {
    if n % 400 == 0 { UniqueRemainder(n, 200, 2 * (n / 400), 0); }
    if n % 200 == 0 { UniqueRemainder(n, 100, 2 * (n / 200), 0); }
    FourByTwentyFive(n);
  }

  /** Strides that together keep the remainder modulo 4. */
  function Lift(n: int): (l: int)
    ensures 1 <= l <= 4
  {
    if n % 4 == 0 then 1 else if n % 2 == 0 then 2 else 4
  }

  lemma LiftKeepsFour(n: int)
    ensures Lift(n) * n % 4 == 0
  {
    if n % 4 != 0 && n % 2 == 0 { UniqueRemainder(2 * n, 4, n / 2, 0); }
  }

  lemma MeetsFour(y: int, n: int) returns (j: int)
    requires !NeverLeap(y, n)
    ensures 1 <= j <= 4 && Stride(y, n, j) % 4 == 0
  {
    hide Stride;
    var a, b := y % 4, n % 4;
    assert b == 2 ==> a == 0 || a == 2 by { EvenRemainders(y, n); }
    j := if a == 0 then 4 else if b == 1 then 4 - a else if b == 2 then 1 else a;
    FourSteps(a, b, j);
    StrideRemainder(y, n, j, 4);
  }

  lemma EvenRemainders(y: int, n: int)
    ensures y % 4 % 2 == y % 2 && n % 4 % 2 == n % 2
  {
    UniqueRemainder(y, 2, 2 * (y / 4) + y % 4 / 2, y % 4 % 2);
    UniqueRemainder(n, 2, 2 * (n / 4) + n % 4 / 2, n % 4 % 2);
  }

  lemma FourSteps(a: int, b: int, j: int)
    requires 0 <= a < 4 && 0 <= b < 4 && (b == 0 ==> a == 0) && (b == 2 ==> a == 0 || a == 2)
    requires j == if a == 0 then 4 else if b == 1 then 4 - a else if b == 2 then 1 else a
    ensures 1 <= j <= 4 && Stride(a, b, j) % 4 == 0
  {
    if b == 0 { assert j * b == 0; }
    else if b == 1 { assert j * b == j; }
    else if b == 2 { assert j * b == 2 * j; }
    else { assert j * b == 3 * j; }
  }

  /** Among four multiples of 100 at equal strides one is a multiple of 400, unless the remainders forbid it. */
  lemma MeetsFourHundred(c: int, s: int) returns (i: int)
    requires c % 100 == 0 && s % 100 == 0
    requires s % 200 == 0 ==> c % 200 == 0
    requires s % 400 == 0 ==> c % 400 == 0
    ensures 1 <= i <= 4 && Stride(c, s, i) % 400 == 0
  {
    hide Stride;
    var a, b := c / 100, s / 100;
    Hundreds(c);
    Hundreds(s);
    var x, y := a % 4, b % 4;
    i := if x == 0 then 4 else if y == 1 then 4 - x else if y == 2 then 1 else x;
    FourSteps(x, y, i);
    StrideRemainder(a, b, i, 4);
    StrideOfHundreds(a, b, i);
  }

  lemma Hundreds(c: int)
    requires c % 100 == 0
    ensures c == 100 * (c / 100)
    ensures c % 400 == 0 <==> c / 100 % 4 == 0
    ensures c % 200 == 0 <==> c / 100 % 4 == 0 || c / 100 % 4 == 2
  {
    var q := c / 100;
    UniqueRemainder(c, 400, q / 4, 100 * (q % 4));
    UniqueRemainder(c, 200, 2 * (q / 4) + q % 4 / 2, 100 * (q % 4 % 2));
  }

  lemma StrideOfHundreds(a: int, b: int, i: int)
    ensures Stride(100 * a, 100 * b, i) == 100 * Stride(a, b, i)
    ensures Stride(a, b, i) % 4 == 0 ==> Stride(100 * a, 100 * b, i) % 400 == 0
  {
    assert i * (100 * b) == 100 * (i * b);
    if Stride(a, b, i) % 4 == 0 { UniqueRemainder(Stride(100 * a, 100 * b, i), 400, Stride(a, b, i) / 4, 0); }
  }

  lemma NeverLeapFails(y: int, n: int) returns (j: int)
    requires !NeverLeap(y, n)
    ensures 1 <= j <= 20 && LeapAt(y, n, j)
  {
    hide Stride, IsLeap, NeverLeap, Lift;
    var k := MeetsFour(y, n);
    var l := Lift(n);
    LiftKeepsFour(n);
    if Stride(y, n, k) % 100 != 0 {
      j := k;
      FourNotHundred(Stride(y, n, k));
    } else if Stride(y, n, k + l) % 100 != 0 {
      j := k + l;
      StrideOn(y, n, k, 1, l);
      SameRemainder(Stride(y, n, k), l * n, 1, 4);
      FourNotHundred(Stride(y, n, k + l));
    } else {
      j := AmongCenturies(y, n, k);
    }
  }

  lemma AmongCenturies(y: int, n: int, k: int) returns (j: int)
    requires !NeverLeap(y, n) && 1 <= k <= 4
    requires Stride(y, n, k) % 100 == 0 && Stride(y, n, k + Lift(n)) % 100 == 0
    ensures 1 <= j <= 20 && LeapAt(y, n, j)
  {
    hide Stride, IsLeap, NeverLeap, Lift;
    var l := Lift(n);
    LiftKeepsFour(n);
    StrideOn(y, n, k, 1, l);
    HundredApart(Stride(y, n, k), l * n);
    LiftedRemainders(y, n, k);
    var i := MeetsFourHundred(Stride(y, n, k), l * n);
    StrideOn(y, n, k, i, l);
    FourNotHundred(Stride(y, n, k + i * l));
    assert 1 <= i * l <= 16;
    j := k + i * l;
  }

  lemma FourNotHundred(t: int)
    ensures t % 4 == 0 && t % 100 != 0 ==> IsLeap(t)
    ensures t % 400 == 0 ==> IsLeap(t)
  {
    if t % 400 == 0 { UniqueRemainder(t, 4, 100 * (t / 400), 0); }
  }

  lemma HundredApart(t: int, s: int)
    requires t % 100 == 0 && Stride(t, s, 1) % 100 == 0
    ensures s % 100 == 0
  {
    UniqueRemainder(s, 100, Stride(t, s, 1) / 100 - t / 100, 0);
  }

  lemma LiftedRemainders(y: int, n: int, k: int)
    requires !NeverLeap(y, n) && Stride(y, n, k) % 100 == 0 && Lift(n) * n % 100 == 0
    ensures Lift(n) * n % 200 == 0 ==> Stride(y, n, k) % 200 == 0
    ensures Lift(n) * n % 400 == 0 ==> Stride(y, n, k) % 400 == 0
  {
    hide Stride;
    if n % 4 == 0 {
      SameRemainder(y, n, k, 100);
      if n % 200 == 0 { SameRemainder(y, n, k, 200); }
      if n % 400 == 0 { SameRemainder(y, n, k, 400); }
    } else {
      LiftNotTwoHundred(n);
    }
  }

  lemma LiftNotTwoHundred(n: int)
    requires n % 4 != 0
    ensures Lift(n) * n % 200 != 0 && Lift(n) * n % 400 != 0
  {
    var s := Lift(n) * n;
    if s % 400 == 0 { UniqueRemainder(s, 200, 2 * (s / 400), 0); }
    if s % 200 == 0 {
      if n % 2 == 0 { UniqueRemainder(n, 4, 25 * (s / 200), 0); }
      else { UniqueRemainder(n, 2, 25 * (s / 200), 0); }
    }
  }

  /** No year met is leap exactly under that condition; 20 strides decide it. */
  lemma NeverLeapIff(y: int, n: int)
    ensures NeverLeap(y, n) <==> forall j: int :: 1 <= j ==> !LeapAt(y, n, j)
    ensures NeverLeap(y, n) <==> forall j: int :: 1 <= j <= 20 ==> !LeapAt(y, n, j)
  {
    hide LeapAt;
    if NeverLeap(y, n) {
      forall j: int ensures !LeapAt(y, n, j) { NeverLeapHolds(y, n, j); }
    } else {
      var j := NeverLeapFails(y, n);
    }
  }
}
