/** Day numbers, proleptic Gregorian dates and broken-down UTC time (log/date.cc, log/timezone.cc). */
module Calendar {
  import Decimal
  import opened Common

  datatype YearMonthDay = YearMonthDay(year: int, month: int, day: int)

  /** Integer division as C computes it. */
  function Div(a: int, b: int): int
    requires b > 0
  {
    Decimal.TruncDiv(a, b)
  }

  function GetJulianDayNumber(year: int, month: int, day: int): int {
    var a := Div(14 - month, 12);
    var y := year + 4800 - a;
    var m := month + 12 * a - 3;
    day + Div(153 * m + 2, 5) + y * 365 + Div(y, 4) - Div(y, 100) + Div(y, 400) - 32045
  }

  function GetYearMonthDay(julianDayNumber: int): YearMonthDay {
    var a := julianDayNumber + 32044;
    var b := Div(4 * a + 3, 146097);
    var c := a - Div(b * 146097, 4);
    var d := Div(4 * c + 3, 1461);
    var e := c - Div(1461 * d, 4);
    var m := Div(5 * e + 2, 153);
    YearMonthDay(b * 100 + d - 4800 + Div(m, 10), m + 3 - 12 * Div(m, 10), e - Div(153 * m + 2, 5) + 1)
  }

  // ---------- the Gregorian calendar, independently of the formulas ----------

  predicate IsLeap(y: int) { y % 4 == 0 && (y % 100 != 0 || y % 400 == 0) }

  function DaysInMonth(y: int, m: int): int
    requires 1 <= m <= 12
  {
    if m == 2 then (if IsLeap(y) then 29 else 28)
    else if m == 4 || m == 6 || m == 9 || m == 11 then 30
    else 31
  }

  predicate IsDate(d: YearMonthDay) {
    1 <= d.month <= 12 && 1 <= d.day <= DaysInMonth(d.year, d.month)
  }

  /** The next day of the calendar. */
  function NextDate(d: YearMonthDay): YearMonthDay
    requires IsDate(d)
  {
    if d.day < DaysInMonth(d.year, d.month) then d.(day := d.day + 1)
    else if d.month < 12 then YearMonthDay(d.year, d.month + 1, 1)
    else YearMonthDay(d.year + 1, 1, 1)
  }

  /** Day number of a date by the C formula. */
  function Number(d: YearMonthDay): int { GetJulianDayNumber(d.year, d.month, d.day) }

  /** The dates whose day number is not negative start at 24 November of the year -4713. */
  const FIRST := YearMonthDay(-4713, 11, 24)

  // ---------- the formulas in terms of a year that starts in March ----------

  /** Years since March of the year -4800, and the month counted from March. */
  function MarchYear(d: YearMonthDay): int { if d.month <= 2 then d.year + 4799 else d.year + 4800 }

  function MarchMonth(d: YearMonthDay): int { if d.month <= 2 then d.month + 9 else d.month - 3 }

  /** Days before month m of a year that starts in March. */
  function DaysBefore(m: int): int { (153 * m + 2) / 5 }

  /** Days before year y. */
  function YearStart(y: int): int { 365 * y + y / 4 - y / 100 + y / 400 }

  lemma NumberByMarch(d: YearMonthDay)
    requires 1 <= d.month <= 12 && MarchYear(d) >= 0
    ensures Number(d) == d.day + DaysBefore(MarchMonth(d)) + YearStart(MarchYear(d)) - 32045
  {
    hide Div;
    var y := MarchYear(d);
    BeforeMarch(d.month);
    Whole(153 * MarchMonth(d) + 2, 5);
    Whole(y, 4);
    Whole(y, 100);
    Whole(y, 400);
  }

  lemma BeforeMarch(month: int)
    requires 1 <= month <= 12
    ensures Div(14 - month, 12) == if month <= 2 then 1 else 0
  {
  }

  /** On numbers that are not negative C's division is the floor. */
  lemma Whole(a: int, b: int)
    requires a >= 0 && b > 0
    ensures Div(a, b) == a / b
  {
  }

  /** The twelve months from March on. */
  lemma MonthLengths(d: YearMonthDay)
    requires 1 <= d.month <= 12
    ensures d.month != 2 ==> DaysBefore(MarchMonth(d) + 1) - DaysBefore(MarchMonth(d)) == DaysInMonth(d.year, d.month)
    ensures d.month == 2 ==> DaysBefore(MarchMonth(d)) == 337
  {
    var m := MarchMonth(d);
    assert m == 0 || m == 1 || m == 2 || m == 3 || m == 4 || m == 5 || m == 6 || m == 7 || m == 8 || m == 9 || m == 10 || m == 11;
  }

  /** A March year is a day longer exactly when the February that ends it is in a leap year. */
  lemma YearLength(y: int)
    requires y >= 0
    ensures YearStart(y + 1) - YearStart(y) == (if IsLeap(y + 1) then 366 else 365)
  {
    Next4(y);
    Next100(y);
    Next400(y);
    Multiples(y + 1);
  }

  lemma Next4(y: int)
    requires y >= 0
    ensures (y + 1) / 4 == y / 4 + (if (y + 1) % 4 == 0 then 1 else 0)
  {
  }

  lemma Next100(y: int)
    requires y >= 0
    ensures (y + 1) / 100 == y / 100 + (if (y + 1) % 100 == 0 then 1 else 0)
  {
  }

  lemma Next400(y: int)
    requires y >= 0
    ensures (y + 1) / 400 == y / 400 + (if (y + 1) % 400 == 0 then 1 else 0)
  {
  }

  lemma Multiples(y: int)
    ensures (y % 400 == 0 ==> y % 100 == 0) && (y % 100 == 0 ==> y % 4 == 0)
  {
  }

  lemma Turn4(y: int)
    ensures (y + 4800) % 4 == y % 4
  {
  }

  lemma Turn100(y: int)
    ensures (y + 4800) % 100 == y % 100
  {
  }

  lemma Turn400(y: int)
    ensures (y + 4800) % 400 == y % 400
  {
  }

  lemma LeapShift(y: int)
    ensures IsLeap(y + 4800) <==> IsLeap(y)
  {
    Turn4(y);
    Turn100(y);
    Turn400(y);
  }

  /** The formula numbers consecutive days consecutively. */
  lemma NumberOfNextDate(d: YearMonthDay)
    requires IsDate(d) && MarchYear(d) >= 0
    ensures IsDate(NextDate(d)) && MarchYear(NextDate(d)) >= 0
    ensures Number(NextDate(d)) == Number(d) + 1
  {
    hide Number;
    var n := NextDate(d);
    NumberByMarch(d);
    NumberByMarch(n);
    if d.day == DaysInMonth(d.year, d.month) {
      MonthLengths(d);
      if d.month == 2 {
        YearLength(MarchYear(d));
        LeapShift(d.year);
        assert DaysBefore(0) == 0;
      }
    }
  }

  // ---------- the inverse ----------

  lemma NumberByDay(d: YearMonthDay)
    requires IsDate(d) && MarchYear(d) >= 0
    ensures Number(d) == YearStart(MarchYear(d)) + DayInYear(d) - 32044
  {
    NumberByMarch(d);
  }

  lemma YearStartSign(y: int)
    requires y >= 0
    ensures YearStart(y) >= 0
  {
  }

  /** Days of a March year before a date. */
  function DayInYear(d: YearMonthDay): int { d.day - 1 + DaysBefore(MarchMonth(d)) }

  lemma DayInYearRange(d: YearMonthDay)
    requires IsDate(d) && MarchYear(d) >= 0
    ensures 0 <= DayInYear(d) <= 365
    ensures DayInYear(d) == 365 ==> IsLeap(MarchYear(d) + 1)
  {
    var m := MarchMonth(d);
    assert m == 0 || m == 1 || m == 2 || m == 3 || m == 4 || m == 5 || m == 6 || m == 7 || m == 8 || m == 9 || m == 10 || m == 11;
    if d.month == 2 {
      LeapShift(d.year);
    }
  }

  /** The first division finds the century, and what it leaves are the days of the century so far. */
  lemma CenturyStep(b: int, r: int, e: int)
    requires b >= 0 && 0 <= r < 100 && 0 <= e <= 365
    requires e == 365 ==> IsLeap(100 * b + r + 1)
    ensures var a := YearStart(100 * b + r) + e;
      (4 * a + 3) / 146097 == b && a - b * 146097 / 4 == 365 * r + r / 4 + e
  {
    var c := 365 * r + r / 4 + e;
    assert (100 * b + r) / 4 == 25 * b + r / 4;
    assert (100 * b + r) / 100 == b;
    assert (100 * b + r) / 400 == b / 4;
    assert b * 146097 / 4 == 36524 * b + b / 4;
    assert YearStart(100 * b + r) + e == 36524 * b + b / 4 + c;
    if e == 365 {
      LeapEnd(b, r);
    }
    assert 0 <= 4 * c + 3 - b % 4 < 146097;
  }

  /** A leap year's February closes the fourth year of a cycle, and a century only every fourth time. */
  lemma LeapEnd(b: int, r: int)
    requires b >= 0 && 0 <= r < 100 && IsLeap(100 * b + r + 1)
    ensures r % 4 == 3
    ensures r == 99 ==> b % 4 == 3
  {
    hide IsLeap;
    FourthYear(b, r);
    if r == 99 {
      FourthCentury(b + 1);
    }
  }

  lemma FourthYear(b: int, r: int)
    requires b >= 0 && 0 <= r < 100 && IsLeap(100 * b + r + 1)
    ensures r % 4 == 3
  {
    assert 100 * b + r + 1 == 4 * (25 * b) + (r + 1);
  }

  lemma FourthCentury(c: int)
    requires c > 0 && IsLeap(100 * c)
    ensures c % 4 == 0
  {
    hide IsLeap;
    LeapCentury(c);
    var q, r := c / 4, c % 4;
    assert 100 * c == 400 * q + 100 * r;
    Residue(q, 100 * r);
  }

  lemma LeapCentury(c: int)
    requires IsLeap(100 * c)
    ensures 100 * c % 400 == 0
  {
    assert 100 * c % 100 == 0;
  }

  lemma Residue(q: int, x: int)
    requires 0 <= x < 400
    ensures (400 * q + x) % 400 == x
  {
  }

  /** The second division finds the year of the century. */
  lemma YearStep(r: int, e: int)
    requires 0 <= r < 100 && 0 <= e <= 365
    requires e == 365 ==> r % 4 == 3
    ensures var c := 365 * r + r / 4 + e;
      (4 * c + 3) / 1461 == r && c - 1461 * r / 4 == e
  {
    assert 1461 * r / 4 == 365 * r + r / 4;
  }

  /** The third division finds the month. */
  lemma MonthStep(d: YearMonthDay)
    requires IsDate(d)
    ensures var m := (5 * DayInYear(d) + 2) / 153;
      m == MarchMonth(d) && DayInYear(d) - DaysBefore(m) + 1 == d.day
      && m + 3 - 12 * (m / 10) == d.month && MarchYear(d) - 4800 + m / 10 == d.year
  {
    var m := MarchMonth(d);
    assert m == 0 || m == 1 || m == 2 || m == 3 || m == 4 || m == 5 || m == 6 || m == 7 || m == 8 || m == 9 || m == 10 || m == 11;
  }

  /** The conversion of a day that is `a` days after 1 March of the year -4800. */
  function DateAfter(a: nat): YearMonthDay {
    var b := (4 * a + 3) / 146097;
    var c := a - b * 146097 / 4;
    var d := (4 * c + 3) / 1461;
    var e := c - 1461 * d / 4;
    var m := (5 * e + 2) / 153;
    YearMonthDay(b * 100 + d - 4800 + m / 10, m + 3 - 12 * (m / 10), e - (153 * m + 2) / 5 + 1)
  }

  /** From there on nothing in the conversion is negative, so C's division is the floor. */
  lemma DateByFloor(a: nat)
    ensures GetYearMonthDay(a - 32044) == DateAfter(a)
  {
    hide Div;
    var b := (4 * a + 3) / 146097;
    Whole(4 * a + 3, 146097);
    Whole(b * 146097, 4);
    var c := a - b * 146097 / 4;
    var d := (4 * c + 3) / 1461;
    Whole(4 * c + 3, 1461);
    Whole(1461 * d, 4);
    var e := c - 1461 * d / 4;
    var m := (5 * e + 2) / 153;
    Whole(5 * e + 2, 153);
    Whole(153 * m + 2, 5);
    Whole(m, 10);
  }

  /** The date computed from the number of a date is that date, from the start of the year -4800 on. */
  lemma DateOfNumber(d: YearMonthDay)
    requires IsDate(d) && MarchYear(d) >= 0
    ensures GetYearMonthDay(Number(d)) == d
  {
    hide Number, GetJulianDayNumber, GetYearMonthDay, DateAfter, IsDate, DaysBefore, MarchYear, MarchMonth, YearStart, IsLeap, DayInYear;
    var y, e := MarchYear(d), DayInYear(d);
    DayInYearRange(d);
    YearStartSign(y);
    NumberByDay(d);
    DateByFloor(YearStart(y) + e);
    DateOfDay(d, y / 100, y % 100);
  }

  /** The three divisions together. */
  lemma DateOfDay(d: YearMonthDay, b: int, r: int)
    requires IsDate(d) && b >= 0 && 0 <= r < 100 && MarchYear(d) == 100 * b + r
    requires YearStart(MarchYear(d)) + DayInYear(d) >= 0
    ensures DateAfter(YearStart(MarchYear(d)) + DayInYear(d)) == d
  {
    hide IsDate, MarchYear, MarchMonth, YearStart, IsLeap, DayInYear, DateAfter, DaysBefore;
    var e := DayInYear(d);
    DayInYearRange(d);
    CenturyStep(b, r, e);
    if e == 365 {
      LeapEnd(b, r);
    }
    YearStep(r, e);
    MonthStep(d);
    DateAfterIs(YearStart(MarchYear(d)) + e, b, 365 * r + r / 4 + e, r, e, MarchMonth(d));
  }

  /** The conversion from the results of its divisions. */
  lemma DateAfterIs(a: nat, b: int, c: int, d: int, e: int, m: int)
    requires b == (4 * a + 3) / 146097 && c == a - b * 146097 / 4
    requires d == (4 * c + 3) / 1461 && e == c - 1461 * d / 4 && m == (5 * e + 2) / 153
    ensures DateAfter(a) == YearMonthDay(b * 100 + d - 4800 + m / 10, m + 3 - 12 * (m / 10), e - DaysBefore(m) + 1)
  {
  }

  /** Every day number from 0 on is the number of a date: the days are counted one by one. */
  lemma {:induction false} NumberIsOnto(j: int) returns (d: YearMonthDay)
    requires j >= 0
    ensures IsDate(d) && d.year >= FIRST.year && Number(d) == j
    decreases j
  {
    if j == 0 {
      d := FIRST;
    } else {
      var before := NumberIsOnto(j - 1);
      NumberOfNextDate(before);
      d := NextDate(before);
    }
  }

  /** The two conversions undo each other on the day numbers from 0 on. */
  lemma NumberOfDate(j: int)
    requires j >= 0
    ensures var d := GetYearMonthDay(j); IsDate(d) && d.year >= FIRST.year && Number(d) == j
  {
    hide GetYearMonthDay, Number, IsDate;
    var d := NumberIsOnto(j);
    DateOfNumber(d);
  }

  /** Consecutive day numbers are consecutive days of the calendar. */
  lemma DatesAdvance(j: int)
    requires j >= 0
    ensures IsDate(GetYearMonthDay(j)) && GetYearMonthDay(j + 1) == NextDate(GetYearMonthDay(j))
  {
    hide GetYearMonthDay, Number, IsDate, NextDate;
    var d := GetYearMonthDay(j);
    NumberOfDate(j);
    NumberOfNextDate(d);
    DateOfNumber(NextDate(d));
  }

  // ---------- 32-bit arithmetic ----------

  predicate FitsInt(n: int) { -INT_MAX - 1 <= n <= INT_MAX }

  /** The last day number whose conversion stays within `int`. */
  const LAST_DAY: int := (INT_MAX - 3) / 4 - 32044

  /** No intermediate result of the date conversion leaves `int`, exactly for the day numbers up to LAST_DAY. */
  lemma DateFitsInt(j: int)
    requires j >= 0
    ensures FitsInt(4 * (j + 32044) + 3) <==> j <= LAST_DAY
    ensures j <= LAST_DAY ==>
      var a := j + 32044;
      var b := Div(4 * a + 3, 146097);
      var c := a - Div(b * 146097, 4);
      var d := Div(4 * c + 3, 1461);
      var e := c - Div(1461 * d, 4);
      FitsInt(a) && FitsInt(b * 146097) && 0 <= c <= 36524 && 0 <= d <= 99 && 0 <= e <= 365
  {
    var a := j + 32044;
    var b := (4 * a + 3) / 146097;
    var c := a - b * 146097 / 4;
    assert 0 <= c <= 36524;
    var d := (4 * c + 3) / 1461;
    assert 0 <= d <= 100 by {
      assert 4 * c + 3 <= 146099;
    }
  }

  /** Nor does any of the other conversion, on dates from 1 March of the year -4800 on up to that of LAST_DAY. */
  lemma NumberFitsInt(d: YearMonthDay)
    requires IsDate(d) && MarchYear(d) >= 0 && Number(d) <= LAST_DAY
    ensures
      var a := Div(14 - d.month, 12);
      var y := d.year + 4800 - a;
      var m := d.month + 12 * a - 3;
      && 0 <= a <= 1 && 0 <= m <= 11 && 0 <= y && FitsInt(153 * m + 2) && FitsInt(y * 365)
      && FitsInt(d.day + Div(153 * m + 2, 5)) && FitsInt(d.day + Div(153 * m + 2, 5) + y * 365)
      && FitsInt(d.day + Div(153 * m + 2, 5) + y * 365 + Div(y, 4))
      && FitsInt(d.day + Div(153 * m + 2, 5) + y * 365 + Div(y, 4) - Div(y, 100) + Div(y, 400))
      && FitsInt(Number(d))
  {
    hide Div, IsLeap;
    var y, m := MarchYear(d), MarchMonth(d);
    NumberByMarch(d);
    BeforeMarch(d.month);
    Whole(153 * m + 2, 5);
    Whole(y, 4);
    Whole(y, 100);
    Whole(y, 400);
    YearsAreLong(y);
  }

  lemma YearsAreLong(y: int)
    requires y >= 0
    ensures YearStart(y) >= 365 * y && 0 <= y / 400 <= y / 100 <= y / 4
  {
  }

  // ---------- broken-down time ----------

  const SECONDS_PER_DAY := 24 * 60 * 60

  /** kJulianDayOf1970_01_01 */
  const EPOCH_DAY: int := GetJulianDayNumber(1970, 1, 1)

  /** `struct tm` without the zone and the daylight flag, which toUtcTime leaves alone. */
  datatype Tm = Tm(year: int, mon: int, mday: int, hour: int, min: int, sec: int, wday: int, yday: int)

  function FillHMS(seconds: nat, utc: Tm): Tm {
    var minutes := seconds / 60;
    utc.(sec := seconds % 60, min := minutes % 60, hour := minutes / 60)
  }

  function WeekDay(julianDayNumber: int): int { Decimal.TruncMod(julianDayNumber + 1, 7) }

  /** toUtcTime(s, true), in the C operators: both truncate, so times before 1970 are adjusted by hand. */
  method ToUtcTime(secondsSinceEpoch: int) returns (utc: Tm)
    requires InRange(secondsSinceEpoch)
    ensures utc == BrokenDown(secondsSinceEpoch)
  {
    hide GetYearMonthDay, GetJulianDayNumber, AsInt32, Decimal.TruncDiv;
    utc := Tm(0, 0, 0, 0, 0, 0, 0, 0);
    var seconds := AsInt32(Decimal.TruncMod(secondsSinceEpoch, SECONDS_PER_DAY));
    var days := AsInt32(Decimal.TruncDiv(secondsSinceEpoch, SECONDS_PER_DAY));
    if seconds < 0 {
      seconds := seconds + SECONDS_PER_DAY;
      days := days - 1;
    }
    FloorDay(secondsSinceEpoch);
    utc := FillHMS(seconds, utc);
    var date := days + EPOCH_DAY;
    var ymd := GetYearMonthDay(date);
    utc := utc.(year := ymd.year - 1900, mon := ymd.month - 1, mday := ymd.day, wday := WeekDay(date));
    utc := utc.(yday := date - GetJulianDayNumber(ymd.year, 1, 1));
  }

  function FromUtcTime(year: int, month: int, day: int, hour: int, minute: int, seconds: int): int {
    (GetJulianDayNumber(year, month, day) - EPOCH_DAY) * SECONDS_PER_DAY + (hour * 3600 + minute * 60 + seconds)
  }

  function FromTm(utc: Tm): int {
    FromUtcTime(utc.year + 1900, utc.mon + 1, utc.mday, utc.hour, utc.min, utc.sec)
  }

  // ---------- what it computes ----------

  /** The day number a moment falls in: the floor, whatever the sign. */
  function DayOf(s: int): int { s / SECONDS_PER_DAY + EPOCH_DAY }

  predicate InRange(s: int) { 0 <= DayOf(s) <= LAST_DAY }

  function BrokenDown(s: int): Tm {
    var d := GetYearMonthDay(DayOf(s));
    var t := s % SECONDS_PER_DAY;
    Tm(d.year - 1900, d.month - 1, d.day, t / 3600, t / 60 % 60, t % 60, (DayOf(s) + 1) % 7, DayOf(s) - GetJulianDayNumber(d.year, 1, 1))
  }

  /** The truncated quotient and remainder with the adjustment are the floor and the non-negative remainder. */
  lemma FloorDay(s: int)
    requires InRange(s)
    ensures var seconds := AsInt32(Decimal.TruncMod(s, SECONDS_PER_DAY));
      var days := AsInt32(Decimal.TruncDiv(s, SECONDS_PER_DAY));
      if seconds < 0 then seconds + SECONDS_PER_DAY == s % SECONDS_PER_DAY && days - 1 == s / SECONDS_PER_DAY
      else seconds == s % SECONDS_PER_DAY && days == s / SECONDS_PER_DAY
  {
    hide AsInt32;
    var days, seconds := Decimal.TruncDiv(s, SECONDS_PER_DAY), Decimal.TruncMod(s, SECONDS_PER_DAY);
    Truncated(s);
    Unwrapped(days);
    Unwrapped(seconds);
  }

  lemma Truncated(s: int)
    requires InRange(s)
    ensures var days, seconds := Decimal.TruncDiv(s, SECONDS_PER_DAY), Decimal.TruncMod(s, SECONDS_PER_DAY);
      && -INT_MAX <= days <= INT_MAX && -SECONDS_PER_DAY < seconds < SECONDS_PER_DAY
      && (if seconds < 0 then seconds + SECONDS_PER_DAY == s % SECONDS_PER_DAY && days - 1 == s / SECONDS_PER_DAY
          else seconds == s % SECONDS_PER_DAY && days == s / SECONDS_PER_DAY)
  {
  }

  lemma Unwrapped(n: int)
    requires -INT_MAX <= n <= INT_MAX
    ensures AsInt32(n) == n
  {
  }

  /** fromUtcTime undoes toUtcTime, before and after 1970. */
  lemma TimeRoundTrip(s: int)
    requires InRange(s)
    ensures FromTm(BrokenDown(s)) == s
  {
    hide GetYearMonthDay, GetJulianDayNumber;
    NumberOfDate(DayOf(s));
    SecondsOfDay(s % SECONDS_PER_DAY);
  }

  lemma SecondsOfDay(t: int)
    requires 0 <= t < SECONDS_PER_DAY
    ensures t / 3600 * 3600 + t / 60 % 60 * 60 + t % 60 == t
    ensures t / 3600 <= 23
  {
    assert t / 3600 == t / 60 / 60;
  }

  /** Every field stays in the range that <time.h> gives it. */
  lemma FieldsInRange(s: int)
    requires InRange(s)
    ensures var utc := BrokenDown(s);
      && 0 <= utc.mon < 12 && 1 <= utc.mday <= DaysInMonth(utc.year + 1900, utc.mon + 1)
      && 0 <= utc.hour < 24 && 0 <= utc.min < 60 && 0 <= utc.sec < 60
      && 0 <= utc.wday < 7
      && utc.yday == DaysBeforeMonth(utc.year + 1900, utc.mon + 1) + utc.mday - 1
  {
    hide GetYearMonthDay, GetJulianDayNumber;
    NumberOfDate(DayOf(s));
    SecondsOfDay(s % SECONDS_PER_DAY);
    DayOfYear(GetYearMonthDay(DayOf(s)));
  }

  /** Days of a civil year before a month, by counting the months. */
  function DaysBeforeMonth(y: int, m: int): (n: int)
    requires 1 <= m <= 12
  {
    if m == 1 then 0 else DaysBeforeMonth(y, m - 1) + DaysInMonth(y, m - 1)
  }

  lemma {:induction false} DayOfYear(d: YearMonthDay)
    requires 1 <= d.month <= 12 && d.year >= -4799
    ensures Number(d) - GetJulianDayNumber(d.year, 1, 1) == DaysBeforeMonth(d.year, d.month) + d.day - 1
    decreases d.month
  {
    if d.month > 1 {
      var last := YearMonthDay(d.year, d.month - 1, DaysInMonth(d.year, d.month - 1));
      var first := YearMonthDay(d.year, d.month, 1);
      DayOfYear(last);
      NumberOfNextDate(last);
      assert Number(d) == Number(first) + d.day - 1;
    }
  }

  /** The other way round: any valid fields that the int arithmetic can convert survive the trip through seconds. */
  lemma FieldsRoundTrip(d: YearMonthDay, hour: int, minute: int, second: int)
    requires IsDate(d) && MarchYear(d) >= 0 && Number(d) <= LAST_DAY
    requires 0 <= hour < 24 && 0 <= minute < 60 && 0 <= second < 60
    ensures var utc := BrokenDown(FromUtcTime(d.year, d.month, d.day, hour, minute, second));
      && YearMonthDay(utc.year + 1900, utc.mon + 1, utc.mday) == d
      && utc.hour == hour && utc.min == minute && utc.sec == second
  {
    hide GetYearMonthDay, GetJulianDayNumber;
    var t := hour * 3600 + minute * 60 + second;
    var s := FromUtcTime(d.year, d.month, d.day, hour, minute, second);
    assert s == (Number(d) - EPOCH_DAY) * SECONDS_PER_DAY + t;
    assert s / SECONDS_PER_DAY == Number(d) - EPOCH_DAY && s % SECONDS_PER_DAY == t;
    DateOfNumber(d);
    assert t / 60 == hour * 60 + minute;
  }

  lemma EpochDay()
    ensures EPOCH_DAY == 2440588
  {
  }

  /** Any moment: 1 January 1970 was a Thursday, the day 4 of its week, and the weekday is the days since then modulo 7. */
  lemma WeekDays(s: int)
    ensures BrokenDown(s).wday == (4 + s / SECONDS_PER_DAY) % 7
  {
    hide GetYearMonthDay, GetJulianDayNumber;
    EpochDay();
  }
}
