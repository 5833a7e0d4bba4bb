/**
The Julian-day arithmetic of glacier/base/date.cc, against an independent reading of
the proleptic Gregorian calendar: the 4/100/400 leap rule, the lengths of the months,
and "the day after".
*/
module Calendar {
  import opened CInt

  datatype YearMonthDay = YearMonthDay(year: int, month: int, day: int)

  const FIRST_JDN := -32044            // 1 March of year -4800
  const LAST_JDN := 536838867          // largest day whose intermediates fit in 32 bits

  // ---------- the reference calendar ----------

  predicate IsLeap(year: int) {
    year % 4 == 0 && (year % 100 != 0 || year % 400 == 0)
  }

  function DaysInMonth(year: int, month: int): int {
    if month == 2 then (if IsLeap(year) then 29 else 28)
    else if month == 4 || month == 6 || month == 9 || month == 11 then 30
    else 31
  }

  predicate ValidDate(d: YearMonthDay) {
    1 <= d.month <= 12 && 1 <= d.day <= DaysInMonth(d.year, d.month)
  }

  predicate Before(d1: YearMonthDay, d2: YearMonthDay) {
    d1.year < d2.year
    || (d1.year == d2.year && (d1.month < d2.month || (d1.month == d2.month && d1.day < d2.day)))
  }

  function NextDay(d: YearMonthDay): YearMonthDay {
    if d.day < DaysInMonth(d.year, d.month) then d.(day := d.day + 1)
    else if d.month < 12 then YearMonthDay(d.year, d.month + 1, 1)
    else YearMonthDay(d.year + 1, 1, 1)
  }

  /** The dates the formulas cover: from 1 March of year -4800 on. */
  predicate Covered(d: YearMonthDay) {
    ValidDate(d) && !Before(d, YearMonthDay(-4800, 3, 1))
  }

  // ---------- the code ----------

  function GetYearMonthDay(julianDayNumber: int): YearMonthDay {
    var a := julianDayNumber + 32044;
    var b := Quot(4 * a + 3, 146097);
    var c := a - Quot(b * 146097, 4);
    var d := Quot(4 * c + 3, 1461);
    var e := c - Quot(1461 * d, 4);
    var m := Quot(5 * e + 2, 153);
    YearMonthDay(
      b * 100 + d - 4800 + Quot(m, 10),
      m + 3 - 12 * Quot(m, 10),
      e - Quot(153 * m + 2, 5) + 1)
  }

  function GetJulianDayNumber(year: int, month: int, day: int): int {
    var a := Quot(14 - month, 12);
    var y := year + 4800 - a;
    var m := month + 12 * a - 3;
    day + Quot(153 * m + 2, 5) + y * 365 + Quot(y, 4) - Quot(y, 100) + Quot(y, 400) - 32045
  }

  function JulianDay(d: YearMonthDay): int {
    GetJulianDayNumber(d.year, d.month, d.day)
  }

  /** Date::weekDay, 0 for Sunday. */
  function WeekDay(julianDayNumber: int): int {
    Rem(julianDayNumber + 1, 7)
  }

  // ---------- the steps of GetYearMonthDay on days counted from FIRST_JDN ----------

  lemma CenturyStep(a: int)
    requires a >= 0
    ensures var b := Quot(4 * a + 3, 146097);
            var c := a - Quot(b * 146097, 4);
            b >= 0 && 0 <= c <= 36524 && (c == 36524 ==> b % 4 == 3)
            && a == 36524 * b + b / 4 + c
  {
    var b := (4 * a + 3) / 146097;
    assert b * 146097 == 4 * (36524 * b) + b;
  }

  lemma YearStep(c: int)
    requires 0 <= c <= 36524
    ensures var d := Quot(4 * c + 3, 1461);
            var e := c - Quot(1461 * d, 4);
            0 <= d <= 99 && 0 <= e <= 365 && (e == 365 ==> d % 4 == 3)
            && c == 365 * d + d / 4 + e
            && (c < 36524 ==> !(d == 99 && e == 365))
  {
  }

  lemma MonthStep(e: int)
    requires 0 <= e <= 365
    ensures var m := Quot(5 * e + 2, 153);
            0 <= m <= 11 && Quot(153 * m + 2, 5) <= e
            && (m < 11 ==> e < Quot(153 * (m + 1) + 2, 5)) && (m == 11 ==> Quot(153 * m + 2, 5) == 337)
  {
  }

  /** A year counted from March, split into centuries. */
  lemma YearParts(b: int, d: int)
    requires b >= 0 && 0 <= d <= 99
    ensures var y := 100 * b + d;
            Quot(y, 100) == b && Quot(y, 400) == b / 4 && Quot(y, 4) == 25 * b + d / 4
  {
    var y := 100 * b + d;
    assert y / 100 == b;
    assert b == 4 * (b / 4) + b % 4;
    assert y == 400 * (b / 4) + (100 * (b % 4) + d);
    assert y / 400 == b / 4;
    assert y == 4 * (25 * b) + d;
    assert y / 4 == 25 * b + d / 4;
  }

  /** The closed form of JulianDay on a date written as century, year of century and month from March. */
  lemma JulianDayOfParts(date: YearMonthDay, b: int, d: int, m: int)
    requires b >= 0 && 0 <= d <= 99 && 0 <= m <= 11
    requires date.year == b * 100 + d - 4800 + Quot(m, 10) && date.month == m + 3 - 12 * Quot(m, 10)
    ensures JulianDay(date) ==
            (36524 * b + b / 4) + (365 * d + d / 4) + Quot(153 * m + 2, 5) + date.day - 1 + FIRST_JDN
  {
    var s := if m < 10 then 0 else 1;
    assert Quot(m, 10) == s;
    assert Quot(14 - date.month, 12) == s;
    YearParts(b, d);
  }

  lemma YearRemainders(q: int, r: int)
    ensures 0 <= r < 4 ==> (4 * q + r) % 4 == r
    ensures 0 <= r < 100 ==> (100 * q + r) % 100 == r
    ensures 0 <= r < 400 ==> (400 * q + r) % 400 == r
  {
    assert 4 * ((4 * q + r) / 4 - q) == r - (4 * q + r) % 4;
    assert 100 * ((100 * q + r) / 100 - q) == r - (100 * q + r) % 100;
    assert 400 * ((400 * q + r) / 400 - q) == r - (400 * q + r) % 400;
  }

  /** February, the last month of the shifted year, has a 29th exactly in a leap year. */
  lemma LeapOfParts(b: int, d: int)
    requires b >= 0 && 0 <= d <= 99
    ensures IsLeap(100 * b + d - 4800 + 1) <==> d % 4 == 3 && (d == 99 ==> b % 4 == 3)
  {
    var y := 100 * b + d - 4799;
    if d == 99 {
      var q, r := b / 4, b % 4;
      assert b == 4 * q + r;
      YearRemainders(100 * (q - 12) + 25 * (r + 1), 0);
      YearRemainders(4 * (q - 12) + r + 1, 0);
      YearRemainders(q - 12, 100 * (r + 1));
      if r == 3 { YearRemainders(q - 11, 0); }
    } else {
      YearRemainders(b - 48, d + 1);
      YearRemainders(25 * (b - 48) + (d + 1) / 4, (d + 1) % 4);
    }
  }

  /** A month counted from March, with its length. */
  lemma MonthLengths(y: int, m: int, k: int)
    requires 0 <= m <= 11
    ensures var date := YearMonthDay(y + Quot(m, 10), m + 3 - 12 * Quot(m, 10), k + 1);
            ValidDate(date) <==>
              0 <= k && (if m < 11 then Quot(153 * m + 2, 5) + k < Quot(153 * (m + 1) + 2, 5)
                         else k < (if IsLeap(y + 1) then 29 else 28))
  {
    hide IsLeap;
  }

  /** The parts GetYearMonthDay splits a covered day into. */
  lemma PartsFrom(j: int) returns (b: int, d: int, m: int, k: int)
    requires j >= FIRST_JDN
    ensures b >= 0 && 0 <= d <= 99 && 0 <= m <= 11 && 0 <= k
    ensures if m < 11 then Quot(153 * m + 2, 5) + k < Quot(153 * (m + 1) + 2, 5)
            else k < (if d % 4 == 3 && (d == 99 ==> b % 4 == 3) then 29 else 28)
    ensures j == (36524 * b + b / 4) + (365 * d + d / 4) + Quot(153 * m + 2, 5) + k + FIRST_JDN
    ensures GetYearMonthDay(j) == YearMonthDay(b * 100 + d - 4800 + Quot(m, 10), m + 3 - 12 * Quot(m, 10), k + 1)
  {
    hide Quot;
    var a := j + 32044;
    CenturyStep(a);
    b := Quot(4 * a + 3, 146097);
    var c := a - Quot(b * 146097, 4);
    YearStep(c);
    d := Quot(4 * c + 3, 1461);
    var e := c - Quot(1461 * d, 4);
    MonthStep(e);
    m := Quot(5 * e + 2, 153);
    k := e - Quot(153 * m + 2, 5);
  }

  /** GetYearMonthDay then GetJulianDayNumber gives the day back. */
  lemma JulianDayOfYearMonthDay(j: int)
    requires j >= FIRST_JDN
    ensures JulianDay(GetYearMonthDay(j)) == j
  {
    var b, d, m, k := PartsFrom(j);
    JulianDayOfParts(GetYearMonthDay(j), b, d, m);
    hide GetYearMonthDay, JulianDay, Quot;
  }

  lemma ValidFrom(j: int)
    requires j >= FIRST_JDN
    ensures Covered(GetYearMonthDay(j))
  {
    var b, d, m, k := PartsFrom(j);
    LeapOfParts(b, d);
    MonthLengths(100 * b + d - 4800, m, k);
    hide GetYearMonthDay;
  }

  lemma InvalidBelow(j: int)
    requires j < FIRST_JDN
    ensures !ValidDate(GetYearMonthDay(j))
  {
    var a := j + 32044;
    var b := Quot(4 * a + 3, 146097);
    assert b <= 0 && 4 * a + 3 <= 146097 * b;
    var c := a - Quot(b * 146097, 4);
    assert c < 0;
    var d := Quot(4 * c + 3, 1461);
    assert d <= 0 && 4 * c + 3 <= 1461 * d;
    var e := c - Quot(1461 * d, 4);
    assert e < 0;
    var m := Quot(5 * e + 2, 153);
    assert m <= 0 && 5 * e + 2 <= 153 * m;
    assert GetYearMonthDay(j).day <= 0;
  }

  /** The formula yields a date of the calendar exactly from 1 March of year -4800 on. */
  lemma ValidExactlyFromFirst(j: int)
    ensures ValidDate(GetYearMonthDay(j)) <==> j >= FIRST_JDN
  {
    if j >= FIRST_JDN { ValidFrom(j); } else { InvalidBelow(j); }
  }

  lemma MonthRecovered(m: int, k: int)
    requires 0 <= m <= 11 && 0 <= k
    requires m < 11 ==> Quot(153 * m + 2, 5) + k < Quot(153 * (m + 1) + 2, 5)
    requires m == 11 ==> k < 29
    ensures var e := Quot(153 * m + 2, 5) + k;
            Quot(5 * e + 2, 153) == m && 0 <= e <= 365 && (e == 365 ==> m == 11 && k == 28)
  {
  }

  lemma YearRecovered(d: int, e: int)
    requires 0 <= d <= 99 && 0 <= e <= 365 && (e == 365 ==> d % 4 == 3)
    ensures var c := 365 * d + d / 4 + e;
            Quot(4 * c + 3, 1461) == d && c - Quot(1461 * d, 4) == e
            && 0 <= c <= 36524 && (c == 36524 ==> d == 99 && e == 365)
  {
    var c := 365 * d + d / 4 + e;
    assert 4 * c + 3 == 1461 * d + (4 * e + 3 - d % 4);
  }

  lemma CenturyRecovered(b: int, c: int)
    requires b >= 0 && 0 <= c <= 36524 && (c == 36524 ==> b % 4 == 3)
    ensures var a := 36524 * b + b / 4 + c;
            Quot(4 * a + 3, 146097) == b && a - Quot(b * 146097, 4) == c
  {
    var a := 36524 * b + b / 4 + c;
    assert 4 * a + 3 == 146097 * b + (4 * c + 3 - b % 4);
    assert b * 146097 == 4 * (36524 * b) + b;
  }

  /** The century, year and month divisions recover the parts a day count was built from. */
  lemma PartsOfDays(b: int, d: int, m: int, k: int)
    requires b >= 0 && 0 <= d <= 99 && 0 <= m <= 11 && 0 <= k
    requires m < 11 ==> Quot(153 * m + 2, 5) + k < Quot(153 * (m + 1) + 2, 5)
    requires m == 11 ==> k < (if d % 4 == 3 && (d == 99 ==> b % 4 == 3) then 29 else 28)
    ensures GetYearMonthDay((36524 * b + b / 4) + (365 * d + d / 4) + Quot(153 * m + 2, 5) + k + FIRST_JDN)
         == YearMonthDay(b * 100 + d - 4800 + Quot(m, 10), m + 3 - 12 * Quot(m, 10), k + 1)
  {
    hide Quot;
    MonthRecovered(m, k);
    var e := Quot(153 * m + 2, 5) + k;
    YearRecovered(d, e);
    var c := 365 * d + d / 4 + e;
    CenturyRecovered(b, c);
  }

  /** A covered date in the parts the formulas work with. */
  lemma PartsOfDate(date: YearMonthDay) returns (b: int, d: int, m: int)
    requires Covered(date)
    ensures b >= 0 && 0 <= d <= 99 && 0 <= m <= 11
    ensures date.year == b * 100 + d - 4800 + Quot(m, 10) && date.month == m + 3 - 12 * Quot(m, 10)
    ensures var k := date.day - 1;
            0 <= k && if m < 11 then Quot(153 * m + 2, 5) + k < Quot(153 * (m + 1) + 2, 5)
            else k < (if d % 4 == 3 && (d == 99 ==> b % 4 == 3) then 29 else 28)
  {
    var s := if date.month <= 2 then 1 else 0;
    var y := date.year + 4800 - s;
    b, d, m := y / 100, y % 100, date.month + 12 * s - 3;
    LeapOfParts(b, d);
    MonthLengths(y - 4800, m, date.day - 1);
    hide IsLeap;
  }

  /** GetJulianDayNumber then GetYearMonthDay gives the date back, for every date of the calendar it covers. */
  lemma YearMonthDayOfJulianDay(date: YearMonthDay)
    requires Covered(date)
    ensures GetYearMonthDay(JulianDay(date)) == date && JulianDay(date) >= FIRST_JDN
  {
    hide GetYearMonthDay, GetJulianDayNumber;
    var b, d, m := PartsOfDate(date);
    JulianDayOfParts(date, b, d, m);
    PartsOfDays(b, d, m, date.day - 1);
  }

  lemma NextDayIsCovered(date: YearMonthDay)
    requires Covered(date)
    ensures Covered(NextDay(date)) && Before(date, NextDay(date))
  {
  }

  /** The last day of a month counted from March, and the month after it. */
  lemma MonthEnd(y: int, m: int, k: int)
    requires 0 <= m <= 11
    requires ValidDate(YearMonthDay(y + Quot(m, 10), m + 3 - 12 * Quot(m, 10), k + 1))
    ensures var date := YearMonthDay(y + Quot(m, 10), m + 3 - 12 * Quot(m, 10), k + 1);
            if k + 1 < DaysInMonth(date.year, date.month) then NextDay(date) == date.(day := k + 2)
            else if m < 11 then
              NextDay(date) == YearMonthDay(y + Quot(m + 1, 10), m + 4 - 12 * Quot(m + 1, 10), 1)
              && Quot(153 * m + 2, 5) + k + 1 == Quot(153 * (m + 1) + 2, 5)
            else
              NextDay(date) == YearMonthDay(y + 1, 3, 1)
              && Quot(153 * m + 2, 5) + k == (if IsLeap(y + 1) then 365 else 364)
  {
    hide IsLeap;
  }

  /** From the end of February to 1 March: the century and leap-day carries of the day count. */
  lemma CarryYear(b: int, d: int)
    requires b >= 0 && 0 <= d <= 99
    ensures var b', d' := if d == 99 then b + 1 else b, if d == 99 then 0 else d + 1;
            (36524 * b' + b' / 4) + (365 * d' + d' / 4)
            == (36524 * b + b / 4) + (365 * d + d / 4) + (if d % 4 == 3 && (d == 99 ==> b % 4 == 3) then 366 else 365)
  {
  }

  lemma JulianDayOfNextDay(date: YearMonthDay)
    requires Covered(date)
    ensures JulianDay(NextDay(date)) == JulianDay(date) + 1
  {
    hide JulianDay, IsLeap, DaysInMonth;
    var b, d, m := PartsOfDate(date);
    LeapOfParts(b, d);
    JulianDayOfParts(date, b, d, m);
    MonthEnd(100 * b + d - 4800, m, date.day - 1);
    if date.day < DaysInMonth(date.year, date.month) {
      JulianDayOfParts(NextDay(date), b, d, m);
    } else if m < 11 {
      JulianDayOfParts(NextDay(date), b, d, m + 1);
    } else {
      CarryYear(b, d);
      JulianDayOfParts(NextDay(date), if d == 99 then b + 1 else b, if d == 99 then 0 else d + 1, 0);
    }
  }

  /** Consecutive Julian days are consecutive days of the calendar. */
  lemma ConsecutiveDays(j: int)
    requires j >= FIRST_JDN
    ensures GetYearMonthDay(j + 1) == NextDay(GetYearMonthDay(j))
  {
    hide GetYearMonthDay, GetJulianDayNumber, NextDay;
    var date := GetYearMonthDay(j);
    ValidFrom(j);
    JulianDayOfYearMonthDay(j);
    JulianDayOfNextDay(date);
    NextDayIsCovered(date);
    YearMonthDayOfJulianDay(NextDay(date));
  }

  /** Later Julian days are later dates. */
  lemma {:induction false} DatesIncrease(j1: int, j2: int)
    requires FIRST_JDN <= j1 < j2
    ensures Before(GetYearMonthDay(j1), GetYearMonthDay(j2))
    decreases j2 - j1
  {
    hide GetYearMonthDay, NextDay;
    ValidFrom(j2 - 1);
    ConsecutiveDays(j2 - 1);
    NextDayIsCovered(GetYearMonthDay(j2 - 1));
    if j1 < j2 - 1 { DatesIncrease(j1, j2 - 1); }
  }

  /** The epoch constant of Date, and the weekday the formula gives it: a Thursday. */
  lemma Epoch()
    ensures GetJulianDayNumber(1970, 1, 1) == 2440588
    ensures GetYearMonthDay(2440588) == YearMonthDay(1970, 1, 1) && WeekDay(2440588) == 4
  {
    var epoch := YearMonthDay(1970, 1, 1);
    hide GetYearMonthDay, GetJulianDayNumber;
    JulianDayOfParts(epoch, 67, 69, 10);
    YearMonthDayOfJulianDay(epoch);
  }

  /** Date::weekDay runs through Sunday..Saturday in step with the days exactly where the Julian day is
      not below -1; before that the C++ remainder is negative unless the day is a Sunday. */
  lemma WeekDayInRange(j: int)
    ensures 0 <= WeekDay(j) <= 6 <==> j >= -1 || (j + 1) % 7 == 0
    ensures j >= -1 ==> WeekDay(j + 1) == (WeekDay(j) + 1) % 7
  {
  }

  // ---------- 32-bit arithmetic ----------

  predicate AllInt32(s: seq<int>) {
    forall i :: 0 <= i < |s| ==> Int32(s[i])
  }

  /** Every intermediate value GetYearMonthDay computes, in the order of the code. */
  function Intermediates(julianDayNumber: int): seq<int> {
    var a := julianDayNumber + 32044;
    var b := Quot(4 * a + 3, 146097);
    var c := a - Quot(b * 146097, 4);
    var d := Quot(4 * c + 3, 1461);
    var e := c - Quot(1461 * d, 4);
    var m := Quot(5 * e + 2, 153);
    [a, 4 * a, 4 * a + 3, b, b * 146097, c, 4 * c, 4 * c + 3, d, 1461 * d, e, 5 * e, 5 * e + 2, m, 153 * m,
     153 * m + 2, b * 100, b * 100 + d, b * 100 + d - 4800, 12 * Quot(m, 10)]
  }

  /** From the first day on, no intermediate leaves 32 bits exactly up to LAST_JDN. */
  lemma FitsExactlyUpToLast(j: int)
    requires j >= FIRST_JDN
    ensures AllInt32(Intermediates(j)) <==> j <= LAST_JDN
  {
    var s := Intermediates(j);
    CenturyStep(j + 32044);
    YearStep(s[5]);
    MonthStep(s[10]);
    assert s[2] == 4 * (j + 32044) + 3;
  }

  /** Every intermediate value GetJulianDayNumber computes, in the order of the code. */
  function CountIntermediates(year: int, month: int, day: int): seq<int> {
    var a := Quot(14 - month, 12);
    var y := year + 4800 - a;
    var m := month + 12 * a - 3;
    var s1 := day + Quot(153 * m + 2, 5);
    var s2 := s1 + y * 365;
    var s3 := s2 + Quot(y, 4);
    var s4 := s3 - Quot(y, 100);
    var s5 := s4 + Quot(y, 400);
    [14 - month, a, year + 4800, y, 12 * a, month + 12 * a, m, 153 * m, 153 * m + 2, Quot(153 * m + 2, 5), s1,
     y * 365, s2, Quot(y, 4), s3, Quot(y, 100), s4, Quot(y, 400), s5, s5 - 32045]
  }

  /** From year -4800 to 1466000, whatever the month and the day, every sum stays small. */
  lemma SmallYearCounts(year: int, month: int, day: int)
    requires 1 <= month <= 12 && 1 <= day <= 31 && -4800 <= year <= 1466000
    ensures AllInt32(CountIntermediates(year, month, day))
    ensures CountIntermediates(year, month, day)[19] == GetJulianDayNumber(year, month, day)
  {
    var y := year + 4800 - Quot(14 - month, 12);
    assert -1 <= y <= 1470800;
  }

  /** The years of the days that fit. */
  lemma YearOfCount(d: YearMonthDay)
    requires Covered(d) && JulianDay(d) <= LAST_JDN
    ensures -4800 <= d.year <= 1466000
  {
    var b, c, m := PartsOfDate(d);
    JulianDayOfParts(d, b, c, m);
    hide JulianDay;
    assert 36524 * b <= LAST_JDN - FIRST_JDN;
  }

  /** Counting a date never leaves 32 bits where splitting its day does not. */
  lemma CountFits(d: YearMonthDay)
    requires Covered(d) && JulianDay(d) <= LAST_JDN
    ensures AllInt32(CountIntermediates(d.year, d.month, d.day))
  {
    hide CountIntermediates;
    YearOfCount(d);
    SmallYearCounts(d.year, d.month, d.day);
  }
}
