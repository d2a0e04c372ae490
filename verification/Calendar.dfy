/** `src/device/cmos.c`: seconds since 1970 and calendar dates. */
module Calendar {
  import opened Bytes
  import opened LongDivision

  const DAY: nat := 86400

  /** `struct tm`, with `year` counted from 1900 and `mon` from 0. */
  datatype Tm = Tm(sec: u32, min: u32, hour: u32, mday: u32, mon: u32, year: u32)

  /** `is_leap_year`. The argument is an `int`; whether a remainder is 0 does not depend on its sign. */
  predicate IsLeapYear(year: int) {
    (year % 4 == 0 && year % 100 != 0) || year % 400 == 0
  }

  /** `days_in_month`. */
  function DaysInMonth(month: int, year: int): (d: nat)
    ensures 28 <= d <= 31
  {
    if month == 2 then if IsLeapYear(year) then 29 else 28
    else if month == 4 || month == 6 || month == 9 || month == 11 then 30
    else 31
  }

  function DaysInYear(year: int): nat {
    if IsLeapYear(year) then 366 else 365
  }

  // ---- The calendar ----

  /** Days from the beginning of 1970 to that of `year`. */
  function DaysBeforeYear(year: nat): nat
    requires year >= 1970
  {
    if year == 1970 then 0 else DaysBeforeYear(year - 1) + DaysInYear(year - 1)
  }

  /** Days from the beginning of `year` to that of its month number `mon`, counted from 0. */
  function DaysBeforeMonth(year: nat, mon: nat): nat {
    if mon == 0 then 0 else DaysBeforeMonth(year, mon - 1) + DaysInMonth(mon, year)
  }

  predicate ValidDate(t: Tm) {
    && t.sec < 60 && t.min < 60 && t.hour < 24
    && 70 <= t.year < 0x8000_0000 - 1900 && t.mon < 12
    && 1 <= t.mday <= DaysInMonth(t.mon + 1, t.year + 1900)
  }

  function DayNumber(t: Tm): nat
    requires ValidDate(t)
  {
    DaysBeforeYear(t.year + 1900) + DaysBeforeMonth(t.year + 1900, t.mon) + t.mday - 1
  }

  /** The time stamp of a valid date. */
  function Seconds(t: Tm): nat
    requires ValidDate(t)
  {
    DAY * DayNumber(t) + 3600 * t.hour + 60 * t.min + t.sec
  }

  lemma YearHasItsMonths(year: nat)
    ensures DaysBeforeMonth(year, 12) == DaysInYear(year)
  {
    var feb := DaysInMonth(2, year);
    assert DaysBeforeMonth(year, 1) == 31;
    assert DaysBeforeMonth(year, 2) == 31 + feb;
    assert DaysBeforeMonth(year, 3) == 62 + feb;
    assert DaysBeforeMonth(year, 4) == 92 + feb;
    assert DaysBeforeMonth(year, 5) == 123 + feb;
    assert DaysBeforeMonth(year, 6) == 153 + feb;
    assert DaysBeforeMonth(year, 7) == 184 + feb;
    assert DaysBeforeMonth(year, 8) == 215 + feb;
    assert DaysBeforeMonth(year, 9) == 245 + feb;
    assert DaysBeforeMonth(year, 10) == 276 + feb;
    assert DaysBeforeMonth(year, 11) == 306 + feb;
  }

  lemma {:induction false} YearsGrow(y: nat, z: nat)
    requires 1970 <= y < z
    ensures DaysBeforeYear(y) + DaysInYear(y) <= DaysBeforeYear(z)
  {
    if y + 1 < z {
      YearsGrow(y, z - 1);
    }
  }

  lemma {:induction false} MonthsGrow(year: nat, m: nat, n: nat)
    requires m < n
    ensures DaysBeforeMonth(year, m) + DaysInMonth(m + 1, year) <= DaysBeforeMonth(year, n)
  {
    if m + 1 < n {
      MonthsGrow(year, m, n - 1);
    }
  }

  lemma DayInYear(t: Tm)
    requires ValidDate(t)
    ensures DaysBeforeYear(t.year + 1900) <= DayNumber(t) < DaysBeforeYear(t.year + 1900) + DaysInYear(t.year + 1900)
    ensures DaysBeforeMonth(t.year + 1900, t.mon) <= DayNumber(t) - DaysBeforeYear(t.year + 1900)
            < DaysBeforeMonth(t.year + 1900, t.mon) + DaysInMonth(t.mon + 1, t.year + 1900)
  {
    YearHasItsMonths(t.year + 1900);
    MonthsGrow(t.year + 1900, t.mon, 12);
  }

  /** Different valid dates have different time stamps. */
  lemma SecondsInjective(s: Tm, t: Tm)
    requires ValidDate(s) && ValidDate(t) && Seconds(s) == Seconds(t)
    ensures s == t
  {
    DayInYear(s);
    DayInYear(t);
    SecondsParts(s);
    SecondsParts(t);
    hide Seconds, DayNumber, DaysBeforeYear, DaysBeforeMonth;
    SameDay(s, t);
  }

  /** The day and the time of day can be read off a time stamp. */
  lemma SecondsParts(t: Tm)
    requires ValidDate(t)
    ensures Seconds(t) / DAY == DayNumber(t) && Seconds(t) % DAY == 3600 * t.hour + 60 * t.min + t.sec
    ensures (3600 * t.hour + 60 * t.min + t.sec) / 3600 == t.hour
    ensures (3600 * t.hour + 60 * t.min + t.sec) % 3600 == 60 * t.min + t.sec
    ensures (60 * t.min + t.sec) / 60 == t.min && (60 * t.min + t.sec) % 60 == t.sec
  {
    hide DayNumber, DaysInMonth;
    QuotientIs(Seconds(t), DAY, DayNumber(t), 3600 * t.hour + 60 * t.min + t.sec);
    QuotientIs(3600 * t.hour + 60 * t.min + t.sec, 3600, t.hour, 60 * t.min + t.sec);
    QuotientIs(60 * t.min + t.sec, 60, t.min, t.sec);
  }

  lemma SameYear(s: Tm, t: Tm)
    requires ValidDate(s) && ValidDate(t) && DayNumber(s) == DayNumber(t)
    ensures s.year >= t.year
  {
    hide DaysBeforeYear, DaysBeforeMonth, DaysInMonth, DaysInYear, DayNumber;
    DayInYear(s);
    DayInYear(t);
    if s.year < t.year {
      YearsGrow(s.year + 1900, t.year + 1900);
    }
  }

  lemma SameMonth(s: Tm, t: Tm)
    requires ValidDate(s) && ValidDate(t) && DayNumber(s) == DayNumber(t) && s.year == t.year
    ensures s.mon >= t.mon
  {
    hide DaysBeforeYear, DaysBeforeMonth, DaysInMonth, DaysInYear, DayNumber, ValidDate;
    DayInYear(s);
    DayInYear(t);
    if s.mon < t.mon {
      MonthsGrow(s.year + 1900, s.mon, t.mon);
    }
  }

  lemma SameDay(s: Tm, t: Tm)
    requires ValidDate(s) && ValidDate(t) && DayNumber(s) == DayNumber(t)
    ensures s.year == t.year && s.mon == t.mon && s.mday == t.mday
  {
    hide DaysBeforeYear, DaysBeforeMonth, DaysInMonth, DaysInYear;
    SameYear(s, t);
    SameYear(t, s);
    SameMonth(s, t);
    SameMonth(t, s);
  }

  // ---- The Gregorian calendar ----

  /** The leap years up to the year `n`. */
  function LeapYearsTo(n: nat): int {
    n / 4 - n / 100 + n / 400
  }

  /** The days from 1 March of the year 0 to the date, as if years began in March. */
  function GregorianDay(year: nat, month: nat, day: nat): int
    requires year >= 1 && 1 <= month <= 12
  {
    var y: nat := if month <= 2 then year - 1 else year;
    var m := (month + 9) % 12;
    365 * y + LeapYearsTo(y) + (153 * m + 2) / 5 + day - 1
  }

  const EPOCH: int := GregorianDay(1970, 1, 1)

  /** The leap rule, in terms of multiples of 4, 100 and 400. */
  lemma LeapYearsCount(n: nat)
    requires n >= 1
    ensures LeapYearsTo(n) == LeapYearsTo(n - 1) + if IsLeapYear(n) then 1 else 0
  {
    MultiplesCount(n, 4);
    MultiplesCount(n, 100);
    MultiplesCount(n, 400);
    if n % 100 == 0 {
      MultipleOfMultiple(n, 4, 25);
    }
    if n % 400 == 0 {
      MultipleOfMultiple(n, 100, 4);
    }
  }

  lemma MultipleOfMultiple(n: nat, k: nat, m: nat)
    requires k >= 1 && m >= 1 && n % (k * m) == 0
    ensures n % k == 0
  {
    var q := n / (k * m);
    assert n == k * m * q == k * (m * q);
    QuotientIs(n, k, m * q, 0);
  }

  lemma MultiplesCount(n: nat, k: nat)
    requires n >= 1 && k >= 1
    ensures n / k == (n - 1) / k + if n % k == 0 then 1 else 0
  {
    var q, r := n / k, n % k;
    assert n == k * q + r;
    if r == 0 {
      assert n - 1 == k * (q - 1) + (k - 1);
      QuotientIs(n - 1, k, q - 1, k - 1);
    } else {
      QuotientIs(n - 1, k, q, r - 1);
    }
  }

  /** The days before a year. */
  lemma {:induction false} DaysBeforeYearIs(year: nat)
    requires year >= 1970
    ensures DaysBeforeYear(year) == 365 * (year - 1970) + LeapYearsTo(year - 1) - LeapYearsTo(1969)
  {
    if year > 1970 {
      DaysBeforeYearIs(year - 1);
      hide LeapYearsTo, IsLeapYear;
      LeapYearsCount(year - 1);
    }
  }

  /** The days before a month, counted from 0. */
  lemma DaysBeforeMonthIs(year: nat, mon: nat)
    requires year >= 1 && mon < 12
    ensures DaysBeforeMonth(year, mon) == if mon < 2 then (153 * (mon + 10) + 2) / 5 - 306
                                          else 59 + (153 * (mon - 2) + 2) / 5 + if IsLeapYear(year) then 1 else 0
  {
    hide IsLeapYear;
    var leap := if IsLeapYear(year) then 1 else 0;
    assert DaysBeforeMonth(year, 0) == 0 && DaysBeforeMonth(year, 1) == 31;
    assert DaysBeforeMonth(year, 2) == 59 + leap;
    assert DaysBeforeMonth(year, 3) == 90 + leap;
    assert DaysBeforeMonth(year, 4) == 120 + leap;
    assert DaysBeforeMonth(year, 5) == 151 + leap;
    assert DaysBeforeMonth(year, 6) == 181 + leap;
    assert DaysBeforeMonth(year, 7) == 212 + leap;
    assert DaysBeforeMonth(year, 8) == 243 + leap;
    assert DaysBeforeMonth(year, 9) == 273 + leap;
    assert DaysBeforeMonth(year, 10) == 304 + leap;
  }

  /** The number of a day is its distance from 1 January 1970 in the Gregorian calendar. */
  lemma DayNumberIsGregorian(t: Tm)
    requires ValidDate(t)
    ensures DayNumber(t) == GregorianDay(t.year + 1900, t.mon + 1, t.mday) - EPOCH
  {
    hide IsLeapYear, DaysBeforeYear, DaysBeforeMonth, LeapYearsTo, GregorianDay;
    var year: nat := t.year + 1900;
    DaysBeforeYearIs(year);
    DaysBeforeMonthIs(year, t.mon);
    LeapYearsCount(year);
    EpochIs();
    FirstOfMonthIs(year, t.mon);
    DayInMonth(year, t.mon + 1, t.mday);
  }

  lemma DayInMonth(year: nat, month: nat, day: nat)
    requires year >= 1 && 1 <= month <= 12
    ensures GregorianDay(year, month, day) == GregorianDay(year, month, 1) + day - 1
  {
    hide LeapYearsTo;
  }

  /** January and February belong to the March-based year before. */
  lemma FirstOfMonthIs(year: nat, mon: nat)
    requires year >= 1 && mon < 12
    ensures GregorianDay(year, mon + 1, 1) ==
            if mon < 2 then 365 * (year - 1) + LeapYearsTo(year - 1) + (153 * (mon + 10) + 2) / 5
            else 365 * year + LeapYearsTo(year) + (153 * (mon - 2) + 2) / 5
  {
    hide LeapYearsTo;
  }

  lemma EpochIs()
    ensures LeapYearsTo(1969) == 477 && EPOCH == 719468
  {
  }

  /** A month has the days that lie between its first day and that of the next one. */
  lemma MonthLengthIs(year: nat, month: nat)
    requires year >= 1970 && 1 <= month <= 12
    ensures DaysInMonth(month, year) == FirstOfNextMonth(year, month) - GregorianDay(year, month, 1)
  {
    LeapYearsCount(year);
    hide IsLeapYear, LeapYearsTo;
    var base := 365 * year + LeapYearsTo(year);
    if month == 1 {
      assert GregorianDay(year, 2, 1) == GregorianDay(year, 1, 1) + 31;
    } else if month == 2 {
      assert GregorianDay(year, 2, 1) == 365 * (year - 1) + LeapYearsTo(year - 1) + 337;
    } else if month == 12 {
      assert GregorianDay(year, 12, 1) == base + 275;
      assert GregorianDay(year + 1, 1, 1) == base + 306;
    } else {
      SpringToFall(year, month);
    }
  }

  function FirstOfNextMonth(year: nat, month: nat): int
    requires year >= 1 && 1 <= month <= 12
  {
    if month < 12 then GregorianDay(year, month + 1, 1) else GregorianDay(year + 1, 1, 1)
  }

  lemma SpringToFall(year: nat, month: nat)
    requires year >= 1 && 3 <= month <= 11
    ensures GregorianDay(year, month + 1, 1) - GregorianDay(year, month, 1) == DaysInMonth(month, year)
  {
    hide LeapYearsTo, IsLeapYear;
    var base := 365 * year + LeapYearsTo(year);
    assert GregorianDay(year, month, 1) == base + (153 * (month - 3) + 2) / 5;
    assert GregorianDay(year, month + 1, 1) == base + (153 * (month - 2) + 2) / 5;
  }

  /** The seconds from 1 January 1970 to a date and time. */
  function GregorianSeconds(t: Tm): int
    requires t.mon < 12
  {
    DAY * (GregorianDay(t.year + 1900, t.mon + 1, t.mday) - EPOCH) + 3600 * t.hour + 60 * t.min + t.sec
  }

  lemma SecondsAreGregorian(t: Tm)
    requires ValidDate(t)
    ensures Seconds(t) == GregorianSeconds(t)
  {
    DayNumberIsGregorian(t);
    hide DayNumber, GregorianDay;
  }

  // ---- The conversions ----

  /** The `int` that a 32-bit year converts to. */
  function AsInt(y: u32): int {
    if y < 0x8000_0000 then y else y - 0x1_0000_0000
  }

  function YearSeconds(y: int): nat {
    if IsLeapYear(y) then 31622400 else 31536000
  }

  function Wrap32(x: int): u32 {
    x % 0x1_0000_0000
  }

  /** The first loop of `datetime_to_timestamp`. */
  method SumYears(year: u32) returns (total: nat)
    ensures total <= 31622400 * 0x1_0000_0000
    ensures 1970 <= year < 0x8000_0000 ==> total == DAY * DaysBeforeYear(year)
  {
    total := 0;
    var y: nat := 1970;
    while y < year
      invariant total <= 31622400 * y && 1970 <= y && (year >= 1970 ==> y <= year) && (year < 1970 ==> total == 0)
      invariant y <= year < 0x8000_0000 ==> total == DAY * DaysBeforeYear(y)
    {
      total := total + YearSeconds(AsInt(y));
      y := y + 1;
    }
  }

  /** The second loop. */
  method SumMonths(year: u32, mon: u32) returns (total: nat)
    ensures total <= 31622400 * 0x1_0000_0000
    ensures year < 0x8000_0000 ==> total == DAY * DaysBeforeMonth(year, mon)
  {
    total := 0;
    var m: nat := 0;
    while m < mon
      invariant m <= mon && total <= 31622400 * m
      invariant year < 0x8000_0000 ==> total == DAY * DaysBeforeMonth(year, m)
    {
      total := total + DaysInMonth(m + 1, AsInt(year)) * 24 * 60 * 60;
      m := m + 1;
    }
  }

  /** `datetime_to_timestamp`, in the 32-bit and 64-bit arithmetic it uses. For a valid date it is the
      time stamp. */
  method DatetimeToTimestamp(tm: Tm) returns (totalSeconds: u64)
    ensures ValidDate(tm) ==> totalSeconds == Seconds(tm)
    ensures ValidDate(tm) ==> totalSeconds == GregorianSeconds(tm)
  {
    var year := Wrap32(tm.year + 1900);
    var total := SumYears(year);
    var inYear := SumMonths(year, tm.mon);
    hide DaysBeforeYear, DaysBeforeMonth, DaysInMonth, GregorianSeconds;
    total := total + inYear;
    total := total + Wrap32((tm.mday - 1) * 24 * 60 * 60);
    total := total + Wrap32(tm.hour * 60 * 60 + tm.min * 60 + tm.sec);
    totalSeconds := total;
    if ValidDate(tm) {
      MonthLength(tm);
      SecondsAreGregorian(tm);
    }
  }

  lemma MonthLength(t: Tm)
    requires ValidDate(t)
    ensures t.mday <= 31
  {
  }

  /** The leap rule as `timestamp_to_datetime` writes it. */
  function LeapBit(year: nat): (b: nat)
    ensures b == if IsLeapYear(year) then 1 else 0
  {
    assert year % 400 == 0 ==> year % 4 == 0 by {
      assert year == 4 * (100 * (year / 400)) + year % 400;
    }
    if year % 4 == 0 && (year % 100 != 0 || year % 400 == 0) then 1 else 0
  }

  /** `timestamp_to_datetime`. The day count is cut to 32 bits; the result is the valid date of what is
      left of the time stamp. */
  method TimestampToDatetime(timestamp: u64) returns (tm: Tm)
    ensures ValidDate(tm)
    ensures Seconds(tm) == DAY * (timestamp / DAY % 0x1_0000_0000) + timestamp % DAY
    ensures GregorianSeconds(tm) == DAY * (timestamp / DAY % 0x1_0000_0000) + timestamp % DAY
  {
    hide GregorianSeconds, IsLeapYear;
    var quotient := DivideNoMod(timestamp, 24 * 3600);
    var days: u32 := quotient % 0x1_0000_0000;
    var all := days;
    var year: u32 := 1970;
    while days >= 365 + LeapBit(year)
      invariant 1970 <= year && all == DaysBeforeYear(year) + days
      invariant 365 * (year - 1970) <= all - days
    {
      days := days - (365 + LeapBit(year));
      year := year + 1;
    }
    YearHasItsMonths(year);
    var month: u32 := 1;
    while days >= DaysInMonth(month, year)
      invariant 1 <= month <= 12 && all == DaysBeforeYear(year) + DaysBeforeMonth(year, month - 1) + days
    {
      MonthsStay(year, month, days);
      days := days - DaysInMonth(month, year);
      month := month + 1;
    }
    var inDay := Mod(timestamp, 24 * 3600);
    var hour := DivideNoMod(inDay, 3600);
    var inHour := Mod(timestamp, 3600);
    var min := DivideNoMod(inHour, 60);
    var sec := Mod(timestamp, 60);
    tm := Tm(sec, min, hour, days + 1, month - 1, year - 1900);
    ClockParts(timestamp);
    SecondsAreGregorian(tm);
  }

  /** There are enough months for the days of a year. */
  lemma MonthsStay(year: nat, month: nat, days: nat)
    requires 1 <= month <= 12 && year >= 1970 && days >= DaysInMonth(month, year)
    requires DaysBeforeMonth(year, month - 1) + days < DaysInYear(year)
    ensures month < 12
  {
    YearHasItsMonths(year);
    assert DaysBeforeMonth(year, month) == DaysBeforeMonth(year, month - 1) + DaysInMonth(month, year);
  }

  lemma ClockParts(t: nat)
    ensures t % DAY == 3600 * (t % DAY / 3600) + 60 * (t % 3600 / 60) + t % 60
  {
    var d, h := t % DAY, t % 3600;
    assert t == DAY * (t / DAY) + d;
    QuotientIs(t, 3600, 24 * (t / DAY) + d / 3600, d % 3600);
    assert t == 3600 * (t / 3600) + h;
    QuotientIs(t, 60, 60 * (t / 3600) + h / 60, h % 60);
  }

  /** Converting a time stamp to a date and back returns it iff its day count fits 32 bits. */
  method ThereAndBack(timestamp: u64) returns (same: bool)
    ensures same <==> timestamp / DAY < 0x1_0000_0000
  {
    hide GregorianSeconds, Seconds, ValidDate;
    var tm := TimestampToDatetime(timestamp);
    var back := DatetimeToTimestamp(tm);
    same := back == timestamp;
    SameIffFits(timestamp);
  }

  lemma SameIffFits(t: nat)
    ensures DAY * (t / DAY % 0x1_0000_0000) + t % DAY == t <==> t / DAY < 0x1_0000_0000
  {
    var q := t / DAY;
    assert t == DAY * q + t % DAY;
    assert q % 0x1_0000_0000 == q <==> q < 0x1_0000_0000;
  }

  /** Converting a valid date to a time stamp and back returns it iff its day count fits 32 bits. */
  method BackAndThere(tm: Tm) returns (same: bool)
    requires ValidDate(tm)
    ensures same <==> DayNumber(tm) < 0x1_0000_0000
  {
    hide DayNumber, Seconds, DaysInMonth, GregorianSeconds;
    var timestamp := DatetimeToTimestamp(tm);
    var there := TimestampToDatetime(timestamp);
    same := there == tm;
    SecondsParts(tm);
    SecondsParts(there);
    if DayNumber(tm) < 0x1_0000_0000 {
      SecondsInjective(there, tm);
    }
  }
}
