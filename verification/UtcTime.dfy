/**
TimeZone::toUtcTime and fromUtcTime of glacier/base/timezone.cc: seconds since the epoch,
positive and negative, against broken-down UTC time.
*/
module UtcTime {
  import opened CInt
  import opened Calendar

  /** The fields of `struct tm` the code reads or writes; the zone name is left out. */
  datatype Tm = Tm(year: int, mon: int, mday: int, hour: int, min: int, sec: int,
                   wday: int, yday: int, isdst: bool, gmtoff: int)

  const SECONDS_PER_DAY := 24 * 60 * 60
  const JULIAN_DAY_OF_1970 := GetJulianDayNumber(1970, 1, 1)
  const FIRST_SECOND := (FIRST_JDN - 2440588) * 86400
  const LAST_SECOND := (LAST_JDN - 2440588) * 86400 + 86399

  /** The instants whose day number the 32-bit calendar covers. */
  predicate InRange(t: int) {
    FIRST_SECOND <= t <= LAST_SECOND
  }

  // ---------- the code ----------

  function FillHMS(seconds: int, utc: Tm): Tm
    requires seconds >= 0
  {
    var minutes := seconds / 60;
    utc.(sec := seconds % 60, min := minutes % 60, hour := minutes / 60)
  }

  function ToUtcTime(secondsSinceEpoch: int, yday: bool): Tm {
    var r := Rem(secondsSinceEpoch, SECONDS_PER_DAY);
    var q := Quot(secondsSinceEpoch, SECONDS_PER_DAY);
    var seconds := if r < 0 then r + SECONDS_PER_DAY else r;
    var days := if r < 0 then q - 1 else q;
    var utc := FillHMS(seconds, Tm(0, 0, 0, 0, 0, 0, 0, 0, false, 0));
    var date := days + JULIAN_DAY_OF_1970;
    var ymd := GetYearMonthDay(date);
    utc.(year := ymd.year - 1900, mon := ymd.month - 1, mday := ymd.day, wday := WeekDay(date),
         yday := if yday then date - GetJulianDayNumber(ymd.year, 1, 1) else 0)
  }

  function FromCivil(year: int, month: int, day: int, hour: int, minute: int, seconds: int): int {
    var secondsInDay := hour * 3600 + minute * 60 + seconds;
    var days := GetJulianDayNumber(year, month, day) - JULIAN_DAY_OF_1970;
    days * SECONDS_PER_DAY + secondsInDay
  }

  function FromUtcTime(utc: Tm): int {
    FromCivil(utc.year + 1900, utc.mon + 1, utc.mday, utc.hour, utc.min, utc.sec)
  }

  // ---------- what a broken-down time means ----------

  function DateOf(tm: Tm): YearMonthDay {
    YearMonthDay(tm.year + 1900, tm.mon + 1, tm.mday)
  }

  predicate ValidTm(tm: Tm) {
    Covered(DateOf(tm)) && 0 <= tm.hour <= 23 && 0 <= tm.min <= 59 && 0 <= tm.sec <= 59
  }

  /** Chronological order of the civil fields, most significant first. */
  predicate Earlier(a: Tm, b: Tm) {
    Before(DateOf(a), DateOf(b))
    || (DateOf(a) == DateOf(b)
        && (a.hour < b.hour
            || (a.hour == b.hour && (a.min < b.min || (a.min == b.min && a.sec < b.sec)))))
  }

  /** Days of the year before the first of the month. */
  function DaysBeforeMonth(year: int, month: int): int
    decreases month
  {
    if month <= 1 then 0 else DaysBeforeMonth(year, month - 1) + DaysInMonth(year, month - 1)
  }

  /** The formula of section 4.16, Seconds Since the Epoch, of the POSIX.1-2017 Base Definitions. */
  function PosixSeconds(tm: Tm): int
    requires tm.year >= 70
  {
    tm.sec + tm.min * 60 + tm.hour * 3600 + tm.yday * 86400
    + (tm.year - 70) * 31536000 + ((tm.year - 69) / 4) * 86400
    - ((tm.year - 1) / 100) * 86400 + ((tm.year + 299) / 400) * 86400
  }

  // ---------- breaking an instant down ----------

  /** The day and the second of the day of an instant, for negative instants too. */
  lemma DayAndSecond(t: int, yday: bool) returns (jdn: int, s: int)
    ensures 0 <= s < 86400 && t == (jdn - 2440588) * 86400 + s
    ensures InRange(t) <==> FIRST_JDN <= jdn <= LAST_JDN
    ensures var tm := ToUtcTime(t, yday);
            DateOf(tm) == GetYearMonthDay(jdn) && tm.wday == WeekDay(jdn)
            && 0 <= tm.hour <= 23 && 0 <= tm.min <= 59 && 0 <= tm.sec <= 59
            && tm.hour * 3600 + tm.min * 60 + tm.sec == s
            && (yday ==> tm.yday == jdn - GetJulianDayNumber(tm.year + 1900, 1, 1))
  {
    hide GetYearMonthDay, GetJulianDayNumber, WeekDay;
    Epoch();
    s := if Rem(t, 86400) < 0 then Rem(t, 86400) + 86400 else Rem(t, 86400);
    jdn := (t - s) / 86400 + 2440588;
    HoursMinutesSeconds(s);
  }

  lemma HoursMinutesSeconds(s: int)
    requires 0 <= s < 86400
    ensures s / 60 / 60 <= 23 && (s / 60 / 60) * 3600 + (s / 60 % 60) * 60 + s % 60 == s
  {
  }

  /** Hour and minute are those of the second of the day, on every instant. */
  lemma MinuteOfUtc(x: int)
    ensures ToUtcTime(x, true).hour * 60 + ToUtcTime(x, true).min == x % 86400 / 60
    ensures 0 <= ToUtcTime(x, true).min <= 59
  {
    hide ToUtcTime, GetYearMonthDay, GetJulianDayNumber, WeekDay, InRange;
    var jdn, s := DayAndSecond(x, true);
    RemainderIs(x, jdn - 2440588, s);
    var tm := ToUtcTime(x, true);
    MinuteIs(tm.hour, tm.min, tm.sec);
  }

  lemma RemainderIs(x: int, q: int, s: int)
    requires x == q * 86400 + s && 0 <= s < 86400
    ensures x % 86400 == s
  {
  }

  lemma MinuteIs(hour: int, min: int, sec: int)
    requires 0 <= sec <= 59
    ensures (hour * 3600 + min * 60 + sec) / 60 == hour * 60 + min
  {
  }

  /** The weekday is that of the date shown, the zone fields are those of UTC, and without `yday` no day of the year
      is given. */
  lemma OtherFields(t: int, yday: bool)
    requires InRange(t)
    ensures var tm := ToUtcTime(t, yday);
            tm.wday == WeekDay(JulianDay(DateOf(tm))) && !tm.isdst && tm.gmtoff == 0 && (!yday ==> tm.yday == 0)
  {
    hide GetYearMonthDay, GetJulianDayNumber, WeekDay;
    var jdn, s := DayAndSecond(t, yday);
    JulianDayOfYearMonthDay(jdn);
  }

  /** The minute of the day of a valid time is that of its seconds. */
  lemma MinuteOfValid(tm: Tm)
    requires 0 <= tm.hour <= 23 && 0 <= tm.min <= 59 && 0 <= tm.sec <= 59
    ensures FromUtcTime(tm) % 86400 / 60 == tm.hour * 60 + tm.min
  {
    hide GetJulianDayNumber;
    var s := tm.hour * 3600 + tm.min * 60 + tm.sec;
    RemainderIs(FromUtcTime(tm), GetJulianDayNumber(tm.year + 1900, tm.mon + 1, tm.mday) - JULIAN_DAY_OF_1970, s);
    MinuteIs(tm.hour, tm.min, tm.sec);
  }

  /** Every field is that of a real date and time of day. */
  lemma ToUtcTimeIsValid(t: int, yday: bool)
    requires InRange(t)
    ensures ValidTm(ToUtcTime(t, yday))
  {
    hide ToUtcTime;
    var jdn, s := DayAndSecond(t, yday);
    ValidFrom(jdn);
  }

  /** fromUtcTime undoes toUtcTime on every instant in range, positive or negative. */
  lemma FromUtcOfToUtc(t: int, yday: bool)
    requires InRange(t)
    ensures FromUtcTime(ToUtcTime(t, yday)) == t
  {
    hide ToUtcTime, GetYearMonthDay, GetJulianDayNumber;
    var jdn, s := DayAndSecond(t, yday);
    JulianDayOfYearMonthDay(jdn);
    Epoch();
  }

  /** toUtcTime undoes fromUtcTime on every valid broken-down time. */
  lemma ToUtcOfFromUtc(tm: Tm, yday: bool)
    requires ValidTm(tm) && JulianDay(DateOf(tm)) <= LAST_JDN
    ensures InRange(FromUtcTime(tm))
    ensures var back := ToUtcTime(FromUtcTime(tm), yday);
            DateOf(back) == DateOf(tm) && back.hour == tm.hour && back.min == tm.min && back.sec == tm.sec
  {
    hide ToUtcTime, GetYearMonthDay, GetJulianDayNumber;
    Epoch();
    YearMonthDayOfJulianDay(DateOf(tm));
    var t := FromUtcTime(tm);
    var jdn, s := DayAndSecond(t, yday);
    assert jdn == JulianDay(DateOf(tm));
  }

  /** Later instants have later civil fields. */
  lemma ToUtcTimeIncreases(t1: int, t2: int, yday: bool)
    requires InRange(t1) && InRange(t2) && t1 < t2
    ensures Earlier(ToUtcTime(t1, yday), ToUtcTime(t2, yday))
  {
    hide ToUtcTime, GetYearMonthDay;
    var j1, s1 := DayAndSecond(t1, yday);
    var j2, s2 := DayAndSecond(t2, yday);
    if j1 < j2 { DatesIncrease(j1, j2); }
  }

  // ---------- 32-bit arithmetic ----------

  /** The values toUtcTime keeps in an int, in the order of the code, the count of 1 January included. */
  function ToUtcInts(t: int): seq<int> {
    var r := Rem(t, SECONDS_PER_DAY);
    var q := Quot(t, SECONDS_PER_DAY);
    var days := if r < 0 then q - 1 else q;
    var ymd := GetYearMonthDay(days + JULIAN_DAY_OF_1970);
    var newYear := GetJulianDayNumber(ymd.year, 1, 1);
    [r, q, if r < 0 then r + SECONDS_PER_DAY else r, days, days + JULIAN_DAY_OF_1970]
    + Intermediates(days + JULIAN_DAY_OF_1970)
    + [ymd.year, ymd.year - 1900, ymd.month - 1, ymd.day, days + JULIAN_DAY_OF_1970 + 1]
    + CountIntermediates(ymd.year, 1, 1) + [days + JULIAN_DAY_OF_1970 - newYear]
  }

  /** The values fromUtcTime keeps in an int; the last, the days since the epoch, is widened before it is
      multiplied. */
  function FromUtcInts(tm: Tm): seq<int> {
    [tm.year + 1900, tm.mon + 1, tm.hour * 3600, tm.min * 60, tm.hour * 3600 + tm.min * 60,
     tm.hour * 3600 + tm.min * 60 + tm.sec]
    + CountIntermediates(tm.year + 1900, tm.mon + 1, tm.mday)
    + [GetJulianDayNumber(tm.year + 1900, tm.mon + 1, tm.mday) - JULIAN_DAY_OF_1970]
  }

  lemma AllInt32Concat(a: seq<int>, b: seq<int>)
    requires AllInt32(a) && AllInt32(b)
    ensures AllInt32(a + b)
  {
  }

  /** Breaking an instant in range down, no cast and no sum leaves 32 bits. */
  lemma ToUtcFits(t: int)
    requires InRange(t)
    ensures AllInt32(ToUtcInts(t))
  {
    hide GetYearMonthDay, GetJulianDayNumber, Intermediates, CountIntermediates, WeekDay, ToUtcTime;
    Epoch();
    var r, q := Rem(t, SECONDS_PER_DAY), Quot(t, SECONDS_PER_DAY);
    var jdn := (if r < 0 then q - 1 else q) + 2440588;
    assert FIRST_JDN <= jdn <= LAST_JDN;
    var date := GetYearMonthDay(jdn);
    ValidFrom(jdn);
    JulianDayOfYearMonthDay(jdn);
    YearOfCount(date);
    FitsExactlyUpToLast(jdn);
    SmallYearCounts(date.year, 1, 1);
    var newYear := GetJulianDayNumber(date.year, 1, 1);
    NewYearIsNear(date);
    var a := [r, q, if r < 0 then r + SECONDS_PER_DAY else r, jdn - 2440588, jdn];
    var b := [date.year, date.year - 1900, date.month - 1, date.day, jdn + 1];
    assert AllInt32(a) && AllInt32(b) && AllInt32([jdn - newYear]);
    AllInt32Concat(a, Intermediates(jdn));
    AllInt32Concat(a + Intermediates(jdn), b);
    AllInt32Concat(a + Intermediates(jdn) + b, CountIntermediates(date.year, 1, 1));
    AllInt32Concat(a + Intermediates(jdn) + b + CountIntermediates(date.year, 1, 1), [jdn - newYear]);
  }

  lemma NewYearIsNear(date: YearMonthDay)
    requires 1 <= date.month <= 12 && 1 <= date.day <= 31 && date.year >= -4800
    ensures -1 <= JulianDay(date) - GetJulianDayNumber(date.year, 1, 1) <= 366
  {
  }

  /** Nor does putting a valid time of a day in range together. */
  lemma FromUtcFits(tm: Tm)
    requires ValidTm(tm) && JulianDay(DateOf(tm)) <= LAST_JDN
    ensures AllInt32(FromUtcInts(tm))
  {
    hide GetYearMonthDay, GetJulianDayNumber, CountIntermediates;
    Epoch();
    var date := DateOf(tm);
    YearOfCount(date);
    CountFits(date);
    YearMonthDayOfJulianDay(date);
    var a := [tm.year + 1900, tm.mon + 1, tm.hour * 3600, tm.min * 60, tm.hour * 3600 + tm.min * 60,
              tm.hour * 3600 + tm.min * 60 + tm.sec];
    var b := CountIntermediates(date.year, date.month, date.day);
    assert AllInt32(a) && AllInt32([JulianDay(date) - 2440588]);
    AllInt32Concat(a, b);
    AllInt32Concat(a + b, [JulianDay(date) - 2440588]);
  }

  // ---------- the day of the year ----------

  lemma {:induction false} DaysSinceNewYear(year: int, month: int)
    requires year > -4800 && 1 <= month <= 12
    ensures GetJulianDayNumber(year, month, 1) == GetJulianDayNumber(year, 1, 1) + DaysBeforeMonth(year, month)
  {
    hide GetJulianDayNumber, DaysBeforeMonth, IsLeap;
    if month == 1 {
      NoMonthBefore(year);
    } else {
      DaysSinceNewYear(year, month - 1);
      OneMonthOn(year, month);
      var last := YearMonthDay(year, month - 1, DaysInMonth(year, month - 1));
      JulianDayOfNextDay(last);
      JulianDayIsLinear(year, month - 1, last.day);
    }
  }

  lemma NoMonthBefore(year: int)
    ensures DaysBeforeMonth(year, 1) == 0
  {
  }

  lemma JulianDayIsLinear(year: int, month: int, day: int)
    ensures GetJulianDayNumber(year, month, day) == GetJulianDayNumber(year, month, 1) + day - 1
  {
  }

  lemma {:induction false} FirstYearDays(month: int)
    requires 3 <= month <= 12
    ensures GetJulianDayNumber(-4800, month, 1)
         == GetJulianDayNumber(-4800, 1, 1) + DaysBeforeMonth(-4800, month) - 1
  {
    hide GetJulianDayNumber, DaysBeforeMonth, IsLeap;
    FirstMonths();
    if month > 3 {
      FirstYearDays(month - 1);
      var last := YearMonthDay(-4800, month - 1, DaysInMonth(-4800, month - 1));
      OneMonthOn(-4800, month);
      JulianDayOfNextDay(last);
      JulianDayIsLinear(-4800, month - 1, last.day);
    }
  }

  lemma OneMonthOn(year: int, month: int)
    requires 1 < month
    ensures DaysBeforeMonth(year, month) == DaysBeforeMonth(year, month - 1) + DaysInMonth(year, month - 1)
  {
  }

  lemma FirstMonths()
    ensures GetJulianDayNumber(-4800, 3, 1) == GetJulianDayNumber(-4800, 1, 1) + 59
    ensures DaysBeforeMonth(-4800, 3) == 60
  {
    assert DaysBeforeMonth(-4800, 2) == 31;
  }

  const YEAR_DAYS_OF_4800 := 306          // from 1 March to 31 December of year -4800

  /** The instants of year -4800 are the first 306 days of the range. */
  lemma FirstYearIs(t: int)
    requires InRange(t)
    ensures ToUtcTime(t, true).year + 1900 == -4800 <==> t < FIRST_SECOND + YEAR_DAYS_OF_4800 * 86400
  {
    hide ToUtcTime, GetYearMonthDay, GetJulianDayNumber;
    var jdn, s := DayAndSecond(t, true);
    ValidFrom(jdn);
    var newYear := YearMonthDay(-4799, 1, 1);
    JulianDayOfParts(newYear, 0, 0, 10);
    YearMonthDayOfJulianDay(newYear);
    assert JulianDay(newYear) == FIRST_JDN + YEAR_DAYS_OF_4800;
    if jdn < FIRST_JDN + YEAR_DAYS_OF_4800 {
      DatesIncrease(jdn, FIRST_JDN + YEAR_DAYS_OF_4800);
    } else if jdn > FIRST_JDN + YEAR_DAYS_OF_4800 {
      DatesIncrease(FIRST_JDN + YEAR_DAYS_OF_4800, jdn);
    }
  }

  /** tm_yday is the number of days elapsed in the year exactly from the 307th day of the range on.  Before
      that, in year -4800, the formula is asked for a 1 January it does not cover, and falls one short. */
  lemma YearDay(t: int)
    requires InRange(t)
    ensures var tm := ToUtcTime(t, true);
            var elapsed := DaysBeforeMonth(tm.year + 1900, tm.mon + 1) + tm.mday - 1;
            (tm.yday == elapsed <==> t >= FIRST_SECOND + YEAR_DAYS_OF_4800 * 86400)
            && (t < FIRST_SECOND + YEAR_DAYS_OF_4800 * 86400 ==> tm.yday == elapsed - 1)
  {
    hide ToUtcTime, GetYearMonthDay, GetJulianDayNumber;
    var jdn, s := DayAndSecond(t, true);
    FirstYearIs(t);
    ValidFrom(jdn);
    JulianDayOfYearMonthDay(jdn);
    var date := GetYearMonthDay(jdn);
    JulianDayIsLinear(date.year, date.month, date.day);
    if date.year > -4800 { DaysSinceNewYear(date.year, date.month); } else { FirstYearDays(date.month); }
  }

  lemma PosixNewYear(year: int)
    requires year >= 70
    ensures GetJulianDayNumber(year + 1900, 1, 1) - 2440588
         == (year - 70) * 365 + (year - 69) / 4 - (year - 1) / 100 + (year + 299) / 400
  {
    var y := year + 6699;
    assert y / 4 == (year - 69) / 4 + 1692;
    assert y / 100 == (year - 1) / 100 + 67;
    assert y / 400 == (year + 299) / 400 + 16;
  }

  /** For the years from 1970 the instant is the value of the POSIX formula on its broken-down time. */
  lemma PosixFormula(t: int)
    requires InRange(t) && ToUtcTime(t, true).year >= 70
    ensures PosixSeconds(ToUtcTime(t, true)) == t
  {
    hide ToUtcTime, GetYearMonthDay, GetJulianDayNumber;
    var jdn, s := DayAndSecond(t, true);
    PosixNewYear(ToUtcTime(t, true).year);
  }
}
