/** Dates and 64-bit timestamps, as in utils/util_time.c. */
module Calendar {
  newtype int8 = x: int | -0x80 <= x < 0x80
  newtype int16 = x: int | -0x8000 <= x < 0x8000
  newtype uint32 = x: int | 0 <= x < 0x1_0000_0000
  newtype uint64 = x: int | 0 <= x < 0x1_0000_0000_0000_0000

  /** DATE_TIME_BUF, without its week day and subseconds, which nothing here reads. */
  datatype DateTimeBuf = DateTimeBuf(Year: int16, Month: int8, Day: int8, Hour: int8, Min: int8, Sec: int8)

  // ----- reference: the Gregorian calendar

  datatype Date = Date(year: int, month: int, day: int, hour: int, min: int, sec: int)

  predicate Leap(y: int) { y % 4 == 0 && (y % 100 != 0 || y % 400 == 0) }

  function YearLength(y: int): int { if Leap(y) then 366 else 365 }

  function MonthLength(y: int, m: int): int {
    if m == 2 then (if Leap(y) then 29 else 28)
    else if m == 4 || m == 6 || m == 9 || m == 11 then 30
    else 31
  }

  predicate Valid(d: Date) {
    && d.year >= 1970 && 1 <= d.month <= 12 && 1 <= d.day <= MonthLength(d.year, d.month)
    && 0 <= d.hour < 24 && 0 <= d.min < 60 && 0 <= d.sec < 60
  }

  /** Days from 1 January 1970 to 1 January of `y`; none for years before. */
  function DaysBeforeYear(y: int): (n: nat)
    decreases y
  {
    if y <= 1970 then 0 else DaysBeforeYear(y - 1) + YearLength(y - 1)
  }

  /** Days of year `y` before the first of month `m`. */
  function DaysBeforeMonth(y: int, m: int): (n: nat)
    decreases m
  {
    if m <= 1 then 0 else DaysBeforeMonth(y, m - 1) + MonthLength(y, m - 1)
  }

  function DayNumber(y: int, m: int, day: int): int { DaysBeforeYear(y) + DaysBeforeMonth(y, m) + (day - 1) }

  function Clock(hour: int, min: int, sec: int): int { hour * 60 * 60 + min * 60 + sec }

  function Seconds(d: Date): int {
    DayNumber(d.year, d.month, d.day) * 24 * 60 * 60 + Clock(d.hour, d.min, d.sec)
  }

  /** Calendar order. */
  predicate Before(a: Date, b: Date) {
    if a.year != b.year then a.year < b.year
    else if a.month != b.month then a.month < b.month
    else if a.day != b.day then a.day < b.day
    else if a.hour != b.hour then a.hour < b.hour
    else if a.min != b.min then a.min < b.min
    else a.sec < b.sec
  }

  /** Gregorian leap years up to and including `y`. */
  function LeapsThrough(y: int): int { y / 4 - y / 100 + y / 400 }

  lemma {:induction false} Multiple(k: int, d: int)
    requires k > 0
    ensures d >= 1 ==> k * d >= k
    ensures d <= -1 ==> k * d <= -k
  {
  }

  lemma {:induction false} Quotient(x: int, k: int, q: int, r: int)
    requires k > 0 && x == k * q + r && 0 <= r < k
    ensures x / k == q && x % k == r
  {
    var d := x / k - q;
    assert k * d == k * (x / k) - k * q;
    Multiple(k, d);
  }

  lemma {:induction false} NextMultiple(y: int, k: int)
    requires y >= 0 && k > 1
    ensures (y + 1) / k == y / k + (if (y + 1) % k == 0 then 1 else 0)
  {
    var q, r := y / k, y % k;
    assert y == k * q + r;
    if r + 1 == k {
      assert y + 1 == k * (q + 1) by { assert k * (q + 1) == k * q + k; }
      Quotient(y + 1, k, q + 1, 0);
    } else {
      Quotient(y + 1, k, q, r + 1);
    }
  }

  lemma {:induction false} LeapNested(y: int)
    ensures y % 400 == 0 ==> y % 100 == 0
    ensures y % 100 == 0 ==> y % 4 == 0
  {
    if y % 400 == 0 {
      Quotient(y, 100, 4 * (y / 400), 0);
    }
    if y % 100 == 0 {
      Quotient(y, 4, 25 * (y / 100), 0);
    }
  }

  /** The recursive count is the closed form of the Gregorian rule: 477 leap days precede 1970. */
  lemma {:induction false} DaysBeforeYearClosed(y: int)
    requires y >= 1970
    ensures DaysBeforeYear(y) == 365 * (y - 1970) + LeapsThrough(y - 1) - 477
    decreases y
  {
    if y > 1970 {
      DaysBeforeYearClosed(y - 1);
      NextMultiple(y - 2, 4);
      NextMultiple(y - 2, 100);
      NextMultiple(y - 2, 400);
      LeapNested(y - 1);
    }
  }

  // ----- order

  lemma {:induction false} YearStarts(y: int)
    requires y >= 1970
    ensures DaysBeforeYear(y + 1) == DaysBeforeYear(y) + YearLength(y)
    ensures DaysBeforeMonth(y, 13) == YearLength(y)
  {
    assert DaysBeforeMonth(y, 13) == DaysBeforeMonth(y, 12) + 31;
    assert DaysBeforeMonth(y, 12) == DaysBeforeMonth(y, 11) + 30;
    assert DaysBeforeMonth(y, 11) == DaysBeforeMonth(y, 10) + 31;
    assert DaysBeforeMonth(y, 10) == DaysBeforeMonth(y, 9) + 30;
    assert DaysBeforeMonth(y, 9) == DaysBeforeMonth(y, 8) + 31;
    assert DaysBeforeMonth(y, 8) == DaysBeforeMonth(y, 7) + 31;
    assert DaysBeforeMonth(y, 7) == DaysBeforeMonth(y, 6) + 30;
    assert DaysBeforeMonth(y, 6) == DaysBeforeMonth(y, 5) + 31;
    assert DaysBeforeMonth(y, 5) == DaysBeforeMonth(y, 4) + 30;
    assert DaysBeforeMonth(y, 4) == DaysBeforeMonth(y, 3) + 31;
    assert DaysBeforeMonth(y, 3) == DaysBeforeMonth(y, 2) + MonthLength(y, 2);
    assert DaysBeforeMonth(y, 2) == DaysBeforeMonth(y, 1) + 31;
  }

  lemma {:induction false} YearsOrdered(a: int, b: int)
    requires 1970 <= a <= b
    ensures DaysBeforeYear(a) <= DaysBeforeYear(b)
    decreases b
  {
    if a < b {
      YearsOrdered(a, b - 1);
    }
  }

  lemma {:induction false} MonthsOrdered(y: int, a: int, b: int)
    requires 1 <= a <= b
    ensures DaysBeforeMonth(y, a) <= DaysBeforeMonth(y, b)
    decreases b
  {
    if a < b {
      MonthsOrdered(y, a, b - 1);
    }
  }

  /** A day lies within its year. */
  lemma {:induction false} DayInYear(d: Date)
    requires Valid(d)
    ensures DaysBeforeYear(d.year) <= DayNumber(d.year, d.month, d.day) < DaysBeforeYear(d.year + 1)
  {
    hide Leap;
    YearStarts(d.year);
    MonthsOrdered(d.year, d.month + 1, 13);
  }

  lemma {:induction false} DaysIncrease(a: Date, b: Date)
    requires Valid(a) && Valid(b)
    requires a.year < b.year || (a.year == b.year && (a.month < b.month || (a.month == b.month && a.day < b.day)))
    ensures DayNumber(a.year, a.month, a.day) < DayNumber(b.year, b.month, b.day)
  {
    hide Leap;
    if a.year < b.year {
      DayInYear(a);
      DayInYear(b);
      YearsOrdered(a.year + 1, b.year);
    } else if a.month < b.month {
      MonthsOrdered(a.year, a.month + 1, b.month);
    }
  }

  lemma {:induction false} ClockInDay(d: Date)
    requires Valid(d)
    ensures 0 <= Clock(d.hour, d.min, d.sec) < 24 * 60 * 60
  {
  }

  /** Timestamps increase strictly in calendar order. */
  lemma {:induction false} StrictlyIncreasing(a: Date, b: Date)
    requires Valid(a) && Valid(b) && Before(a, b)
    ensures Seconds(a) < Seconds(b)
  {
    hide DayNumber, MonthLength;
    ClockInDay(a);
    ClockInDay(b);
    if !(a.year == b.year && a.month == b.month && a.day == b.day) {
      DaysIncrease(a, b);
    }
  }

  lemma {:induction false} Trichotomy(a: Date, b: Date)
    ensures a == b || Before(a, b) || Before(b, a)
  {
  }

  /** So order on timestamps is order on dates, and no two dates share one. */
  lemma {:induction false} OrderReflected(a: Date, b: Date)
    requires Valid(a) && Valid(b)
    ensures Seconds(a) == Seconds(b) <==> a == b
    ensures Seconds(a) < Seconds(b) <==> Before(a, b)
  {
    hide Seconds, Valid, Before;
    Trichotomy(a, b);
    if Before(a, b) {
      StrictlyIncreasing(a, b);
    }
    if Before(b, a) {
      StrictlyIncreasing(b, a);
    }
  }

  // ----- the conversions

  const DAYS_IN_MONTH: seq<int> := [31, 28, 31, 30, 31, 30, 31, 31, 30, 31, 30, 31]

  lemma {:induction false} MonthTable(y: int, m: int)
    requires 1 <= m <= 12
    ensures MonthLength(y, m) == DAYS_IN_MONTH[m - 1] + (if m == 2 && Leap(y) then 1 else 0)
  {
    hide Leap;
  }

  function Fields(ct: DateTimeBuf): Date {
    Date(ct.Year as int, ct.Month as int, ct.Day as int, ct.Hour as int, ct.Min as int, ct.Sec as int)
  }

  /** Arithmetic on uint64_t wraps. */
  function Wrap64(x: int): uint64 { (x % 0x1_0000_0000_0000_0000) as uint64 }

  lemma {:induction false} WrapSame(a: int, b: int, q: int)
    requires b == a + 0x1_0000_0000_0000_0000 * q
    ensures Wrap64(a) == Wrap64(b)
  {
    var w := 0x1_0000_0000_0000_0000;
    assert b == w * (a / w + q) + a % w;
    Quotient(b, w, a / w + q, a % w);
  }

  lemma {:induction false} WrapAdd(x: int, y: int)
    ensures Wrap64(Wrap64(x) as int + y) == Wrap64(x + y)
  {
    WrapSame(x % 0x1_0000_0000_0000_0000 + y, x + y, x / 0x1_0000_0000_0000_0000);
  }

  lemma {:induction false} WrapMul(x: int, k: int)
    ensures Wrap64(Wrap64(x) as int * k) == Wrap64(x * k)
  {
    var w := 0x1_0000_0000_0000_0000;
    var q, r := x / w, x % w;
    assert x == w * q + r;
    assert x * k == r * k + w * (q * k) by { assert (w * q + r) * k == w * (q * k) + r * k; }
    WrapSame(r * k, x * k, q * k);
  }

  /** What the month loop reads behind its table of twelve when the month is above 13. */
  function Behind(memory: seq<int>, m: int): int
    requires m - 13 <= |memory|
    decreases m
  {
    if m <= 13 then 0 else Behind(memory, m - 1) + memory[m - 14]
  }

  lemma {:induction false} MonthStep(y: int, m: int, memory: seq<int>)
    requires 1 <= m <= |memory| + 12
    ensures DaysBeforeMonth(y, if m + 1 <= 13 then m + 1 else 13) + Behind(memory, m + 1) ==
            DaysBeforeMonth(y, if m <= 13 then m else 13) + Behind(memory, m)
            + (if m <= 12 then DAYS_IN_MONTH[m - 1] + (if m == 2 && Leap(y) then 1 else 0) else memory[m - 13])
  {
    hide Leap, MonthLength;
    if m <= 12 {
      MonthTable(y, m);
    }
  }

  lemma {:induction false} NoMonth(y: int, m: int, memory: seq<int>)
    requires m - 13 <= |memory|
    ensures m <= 1 ==> DaysBeforeMonth(y, m) == 0
    ensures DaysBeforeMonth(y, 1) == 0 && Behind(memory, 1) == 0 && (m <= 13 ==> Behind(memory, m) == 0)
  {
  }

  lemma {:induction false} EarlyYear(y: int)
    ensures y <= 1970 ==> DaysBeforeYear(y) == 0
  {
  }

  function Capped(d: Date): Date { if d.month <= 13 then d else d.(month := 13) }

  lemma {:induction false} ClockIs(h: int, m: int, s: int)
    ensures Clock(h, m, s) == h * 60 * 60 + m * 60 + s
  {
  }

  lemma {:induction false} WrapSum(a: int, b: int, c: int, d: int)
    ensures Wrap64(Wrap64(Wrap64(Wrap64(a) as int + b) as int + c) as int + d) == Wrap64(a + b + c + d)
  {
    hide Wrap64;
    WrapAdd(a, b);
    WrapAdd(a + b, c);
    WrapAdd(a + b + c, d);
  }

  lemma {:induction false} FirstYear()
    ensures DaysBeforeYear(1970) == 0
  {
  }

  /**
   * Whatever the fields hold, the result is their weighted sum modulo 2^64; for a date from 1970
   * on that is the timestamp itself (SecondsFit). `memory` is what stands behind the table.
   */
  method CvtTimestamp64(ct: DateTimeBuf, memory: seq<int>) returns (r: uint64)
    requires |memory| >= 114
    ensures ct.Month <= 13 ==> r == Wrap64(Seconds(Fields(ct)))
    ensures r == Wrap64(Seconds(Capped(Fields(ct))) + Behind(memory, ct.Month as int) * 24 * 60 * 60)
  {
    hide Leap, Wrap64, Clock, MonthLength, DaysBeforeYear, DaysBeforeMonth, Behind;
    FirstYear();
    EarlyYear(ct.Year as int);
    var totalDays := 0;
    var y := 1970;
    ghost var year := ct.Year as int;
    while y < ct.Year as int
      invariant y <= year || y == 1970
      invariant totalDays == DaysBeforeYear(y) && 0 <= totalDays
      invariant year < 1970 ==> y == 1970
    {
      YearStarts(y);
      totalDays := totalDays + (if Leap(y) then 366 else 365);
      y := y + 1;
    }
    assert totalDays == DaysBeforeYear(year);
    NoMonth(year, ct.Month as int, memory);
    var m := 1;
    while m < ct.Month as int
      invariant 1 <= m && (m <= ct.Month as int || m == 1)
      invariant totalDays == DaysBeforeYear(year) + DaysBeforeMonth(year, if m <= 13 then m else 13) + Behind(memory, m)
    {
      MonthStep(year, m, memory);
      totalDays := totalDays + (if m <= 12 then DAYS_IN_MONTH[m - 1] else memory[m - 13]);
      if m == 2 && Leap(ct.Year as int) {
        totalDays := totalDays + 1;
      }
      m := m + 1;
    }
    ghost var d, extra := Capped(Fields(ct)), Behind(memory, ct.Month as int);
    ghost var days := DayNumber(d.year, d.month, d.day) + extra;
    assert totalDays == days - (ct.Day as int - 1);
    var total := Wrap64(totalDays + (ct.Day as int - 1));
    WrapMul(days, 24 * 60 * 60);
    var seconds := Wrap64(total as int * 24 * 60 * 60);
    WrapSum(days * 24 * 60 * 60, ct.Hour as int * 60 * 60, ct.Min as int * 60, ct.Sec as int);
    seconds := Wrap64(seconds as int + ct.Hour as int * 60 * 60);
    seconds := Wrap64(seconds as int + ct.Min as int * 60);
    seconds := Wrap64(seconds as int + ct.Sec as int);
    ClockIs(ct.Hour as int, ct.Min as int, ct.Sec as int);
    return seconds;
  }

  /** No wrap-around happens for a valid date held in the struct. */
  lemma {:induction false} SecondsFit(ct: DateTimeBuf)
    requires Valid(Fields(ct))
    ensures Wrap64(Seconds(Fields(ct))) as int == Seconds(Fields(ct))
  {
    hide DayNumber, DaysBeforeYear, MonthLength;
    var d := Fields(ct);
    DayInYear(d);
    YearsOrdered(d.year + 1, 0x8000);
    DaysBeforeYearClosed(0x8000);
    ClockInDay(d);
  }

  /** The largest year an int holds. */
  const MAX_YEAR := 0x7FFF_FFFF

  lemma {:induction false} FirstMonth(y: int)
    ensures DaysBeforeMonth(y, 1) == 0
  {
  }

  lemma {:induction false} NextMonth(y: int, m: int)
    requires m >= 1
    ensures DaysBeforeMonth(y, m + 1) == DaysBeforeMonth(y, m) + MonthLength(y, m)
  {
  }

  /**
   * The date found is valid and its timestamp is the argument; no month index leaves the table
   * and no year overflows an int, up to the last day before the largest year.
   */
  method CvtTimestamp64ToDate(timestamp: uint64) returns (d: Date)
    requires timestamp as int < DaysBeforeYear(MAX_YEAR) * 24 * 60 * 60
    ensures Valid(d) && Seconds(d) == timestamp as int && d.year <= MAX_YEAR
  {
    hide Leap, DaysBeforeYear, DaysBeforeMonth;
    var totalSeconds := timestamp as int;
    var sec := totalSeconds % 60;
    totalSeconds := totalSeconds / 60;
    var min := totalSeconds % 60;
    totalSeconds := totalSeconds / 60;
    var hour := totalSeconds % 24;
    totalSeconds := totalSeconds / 24;
    var totalDays := totalSeconds;
    ghost var days := totalDays;
    assert timestamp as int == days * 24 * 60 * 60 + Clock(hour, min, sec);
    assert DaysBeforeYear(1970) == 0 by { FirstYear(); }
    var year := 1970;
    while totalDays >= (if Leap(year) then 366 else 365)
      invariant year >= 1970 && totalDays >= 0 && days == DaysBeforeYear(year) + totalDays
      invariant year <= MAX_YEAR
      decreases totalDays
    {
      YearStarts(year);
      if year == MAX_YEAR {
        assert false;
      }
      totalDays := totalDays - (if Leap(year) then 366 else 365);
      year := year + 1;
    }
    YearStarts(year);
    var month := 1;
    FirstMonth(year);
    MonthTable(year, month);
    while totalDays >= DAYS_IN_MONTH[month - 1] + (if month == 2 && Leap(year) then 1 else 0)
      invariant 1 <= month <= 12 && totalDays >= 0
      invariant days == DaysBeforeYear(year) + DaysBeforeMonth(year, month) + totalDays
      invariant MonthLength(year, month) == DAYS_IN_MONTH[month - 1] + (if month == 2 && Leap(year) then 1 else 0)
      decreases totalDays
    {
      NextMonth(year, month);
      totalDays := totalDays - DAYS_IN_MONTH[month - 1];
      if month == 2 && Leap(year) {
        totalDays := totalDays - 1;
      }
      month := month + 1;
      MonthTable(year, month);
    }
    d := Date(year, month, totalDays + 1, hour, min, sec);
  }

  // ----- the conversions as inverse bijections

  lemma {:induction false} YearPositive(y: int)
    ensures YearLength(y) > 0
  {
  }

  lemma {:induction false} FindYear(days: nat) returns (year: int)
    ensures year >= 1970 && DaysBeforeYear(year) <= days < DaysBeforeYear(year) + YearLength(year)
  {
    hide Leap, YearLength, DaysBeforeMonth;
    year := 1970;
    FirstYear();
    while days - DaysBeforeYear(year) >= YearLength(year)
      invariant year >= 1970 && DaysBeforeYear(year) <= days
      decreases days - DaysBeforeYear(year)
    {
      YearStarts(year);
      YearPositive(year);
      year := year + 1;
    }
  }

  lemma {:induction false} FindMonth(year: int, rest: nat) returns (month: int)
    requires year >= 1970 && rest < YearLength(year)
    ensures 1 <= month <= 12 && 0 <= rest - DaysBeforeMonth(year, month) < MonthLength(year, month)
  {
    hide Leap, YearLength, DaysBeforeYear, MonthLength;
    month := 1;
    FirstMonth(year);
    YearStarts(year);
    while rest - DaysBeforeMonth(year, month) >= MonthLength(year, month)
      invariant 1 <= month <= 12 && DaysBeforeMonth(year, month) <= rest
      decreases 13 - month
    {
      NextMonth(year, month);
      month := month + 1;
    }
  }

  /** A date for every timestamp: days and clock of the year and month that contain it. */
  lemma {:induction false} EverySecondHasADate(t: nat) returns (d: Date)
    ensures Valid(d) && Seconds(d) == t
  {
    hide Leap, DaysBeforeYear, DaysBeforeMonth, MonthLength, YearLength;
    var days, clock := t / 86400, t % 86400;
    var year := FindYear(days);
    var rest := days - DaysBeforeYear(year);
    var month := FindMonth(year, rest);
    d := Date(year, month, rest - DaysBeforeMonth(year, month) + 1, clock / 3600, clock % 3600 / 60, clock % 60);
  }

  /** Converting there and back gives every valid date back. */
  method ThereAndBack(ct: DateTimeBuf, memory: seq<int>) returns (d: Date)
    requires Valid(Fields(ct)) && |memory| >= 114
    ensures d == Fields(ct)
  {
    hide DayNumber, DaysBeforeYear, MonthLength, Wrap64;
    SecondsFit(ct);
    var e := Fields(ct);
    DayInYear(e);
    ClockInDay(e);
    YearsOrdered(e.year + 1, MAX_YEAR);
    var t := CvtTimestamp64(ct, memory);
    d := CvtTimestamp64ToDate(t);
    OrderReflected(e, d);
  }

  // ----- day of the year

  const DAYS_UNTIL_MONTH: seq<int> := [0, 31, 59, 90, 120, 151, 181, 212, 243, 273, 304, 334]
  const DAYS_UNTIL_MONTH_LEAP: seq<int> := [0, 31, 60, 91, 121, 152, 182, 213, 244, 274, 305, 335]

  function DayOfYear(year: int, month: int, day: int): uint32 {
    if month < 1 || month > 12 || day < 1 || day > 31 then
      0xFFFF_FFFF
    else
      var table := if Leap(year) then DAYS_UNTIL_MONTH_LEAP else DAYS_UNTIL_MONTH;
      (table[month - 1] + day) as uint32
  }

  lemma {:induction false} UntilMonth(y: int, m: int)
    requires 1 <= m <= 12
    ensures DaysBeforeMonth(y, m) == if Leap(y) then DAYS_UNTIL_MONTH_LEAP[m - 1] else DAYS_UNTIL_MONTH[m - 1]
    decreases m
  {
    hide Leap;
    if m > 1 {
      UntilMonth(y, m - 1);
    }
  }

  /** The tables agree with counting days from 1 January. */
  lemma {:induction false} DayOfYearIs(d: Date)
    requires Valid(d)
    ensures DayOfYear(d.year, d.month, d.day) as int ==
            DayNumber(d.year, d.month, d.day) - DayNumber(d.year, 1, 1) + 1
  {
    hide Leap;
    UntilMonth(d.year, d.month);
    FirstMonth(d.year);
  }

  // ----- is_valid_datetime

  function IsValidDatetime(nt: DateTimeBuf): bool {
    if nt.Year < 1970 || nt.Year > 2099 then
      false
    else if nt.Month < 1 || nt.Month > 12 then
      false
    else
      var dim := if nt.Month == 2 && Leap(nt.Year as int) then 29 else DAYS_IN_MONTH[nt.Month as int - 1];
      if nt.Day < 1 || nt.Day as int > dim then false
      else if nt.Hour < 0 || nt.Hour > 23 then false
      else if nt.Min < 0 || nt.Min > 59 then false
      else if nt.Sec < 0 || nt.Sec > 59 then false
      else true
  }

  lemma {:induction false} IsValidIs(nt: DateTimeBuf)
    ensures IsValidDatetime(nt) <==> Valid(Fields(nt)) && nt.Year <= 2099
  {
    hide Leap;
    if 1 <= nt.Month <= 12 {
      MonthTable(nt.Year as int, nt.Month as int);
    }
  }

  /** 1 January 2100, 00:00:00. */
  const END_OF_2099: int := 4102444800

  lemma {:induction false} SecondsBelow(d: Date)
    requires Valid(d)
    ensures Seconds(d) < END_OF_2099 <==> DayNumber(d.year, d.month, d.day) < 47482
  {
    hide DayNumber, MonthLength, Clock;
    ClockInDay(d);
  }

  lemma {:induction false} DaysTo2100()
    ensures DaysBeforeYear(2100) == 47482
  {
    hide DaysBeforeYear;
    DaysBeforeYearClosed(2100);
  }

  lemma {:induction false} From1970(d: Date)
    requires Valid(d)
    ensures d.year >= 1970
  {
  }

  /** It accepts exactly the calendar dates whose timestamp lies before the year 2100. */
  lemma {:induction false} ValidMeansBefore2100(nt: DateTimeBuf)
    ensures IsValidDatetime(nt) <==> Valid(Fields(nt)) && Seconds(Fields(nt)) < END_OF_2099
  {
    hide DayNumber, DaysBeforeYear, MonthLength, IsValidDatetime, Valid, Seconds;
    IsValidIs(nt);
    var d := Fields(nt);
    if Valid(d) {
      SecondsBelow(d);
      DaysTo2100();
      From1970(d);
      DayInYear(d);
      if d.year <= 2099 {
        YearsOrdered(d.year + 1, 2100);
      } else {
        YearsOrdered(2100, d.year);
      }
    }
  }
}
