/** 64-bit epoch seconds to broken-down UTC time. */
module Gmtime {
  import opened Calendar

  const CHEAT_DAYS := 13879
  const CHEAT_YEARS := 108

  type int64 = x: int | -0x8000_0000_0000_0000 <= x < 0x8000_0000_0000_0000

  predicate FitsInt(x: int) {
    -0x8000_0000 <= x < 0x8000_0000
  }

  /** C division and remainder: towards zero. */
  function Quot(a: int, b: int): int
    requires b > 0
  {
    if a >= 0 then a / b else -((-a) / b)
  }

  function Rem(a: int, b: int): int
    requires b > 0
  {
    a - b * Quot(a, b)
  }

  /** The C int that a wider value converts to. */
  function Truncated(x: int): int {
    (x + 0x8000_0000) % 0x1_0000_0000 - 0x8000_0000
  }

  function YdayTable(leap: bool, month: int): int
    requires 0 <= month < 12
  {
    if leap then [0, 31, 60, 91, 121, 152, 182, 213, 244, 274, 305, 335][month]
    else [0, 31, 59, 90, 120, 151, 181, 212, 243, 273, 304, 334][month]
  }

  /** The broken-down time; mon and yday count from 0, mday from 1, year from 1900. */
  class Tm {
    var sec: int
    var min: int
    var hour: int
    var mday: int
    var mon: int
    var year: int
    var wday: int
    var yday: int

    constructor () {}

    /** The date and the time of day of an epoch second. */
    ghost predicate Describes(time: int)
      reads this
    {
      var day := time / 86400;
      var leap := Leap(year + 1900);
      && InYear(day, year + 1900)
      && yday == day - YearStart(year + 1900)
      && 0 <= mon < 12 && MonthStart(leap, mon) <= yday < MonthStart(leap, mon + 1)
      && mday == yday - MonthStart(leap, mon) + 1
      && wday == (day + 4) % 7
      && 0 <= sec < 60 && 0 <= min < 60 && 0 <= hour < 24
      && time == 86400 * day + 3600 * hour + 60 * min + sec
    }
  }

  /** Seconds, minutes and hours split off with C's rounding and then wrapped into range. */
  method SplitTime(inTime: int64) returns (sec: int, min: int, hour: int, days: int)
    ensures days == inTime / 86400 && inTime == 86400 * days + 3600 * hour + 60 * min + sec
    ensures 0 <= sec < 60 && 0 <= min < 60 && 0 <= hour < 24
  {
    var time: int := inTime;
    sec := Rem(time, 60);
    time := Quot(time, 60);
    min := Rem(time, 60);
    time := Quot(time, 60);
    hour := Rem(time, 24);
    time := Quot(time, 24);
    days := time;
    if sec < 0 { min := min - 1; sec := sec + 60; }
    if min < 0 { hour := hour - 1; min := min + 60; }
    if hour < 0 { days := days - 1; hour := hour + 24; }
  }

  /** Forward from the first of January of `from`: whole cycles, then years, then months. */
  method SplitForward(m0: int, from: int) returns (year: int, month: int, m: int)
    requires m0 >= 0
    ensures 0 <= month < 12 && 0 <= m < DaysInMonth(Leap(year + 1900), month)
    ensures YearStart(from + 1900) + m0 == YearStart(year + 1900) + MonthStart(Leap(year + 1900), month) + m
  {
    m, year := m0, from;
    var cycles := Quot(m, 146097);
    if cycles != 0 {
      m := m - cycles * 146097;
      year := year + cycles * 400;
    }
    YearStartCycle(from + 1900, cycles);
    var leap := Leap(year + 1900);
    while m >= (if leap then 366 else 365)
      invariant leap == Leap(year + 1900) && m >= 0
      invariant YearStart(from + 1900) + m0 == YearStart(year + 1900) + m
    {
      YearStartNext(year + 1900);
      m := m - (if leap then 366 else 365);
      year := year + 1;
      leap := Leap(year + 1900);
    }
    MonthStartTable(leap, 12);
    month := 0;
    while m >= DaysInMonth(leap, month)
      invariant 0 <= month < 12 && 0 <= m
      invariant YearStart(from + 1900) + m0 == YearStart(year + 1900) + MonthStart(leap, month) + m
      invariant MonthStart(leap, month) + m < MonthStart(leap, 12)
      decreases m
    {
      MonthStartMonotone(leap, month + 1, 12);
      m := m - DaysInMonth(leap, month);
      month := month + 1;
    }
  }

  /** Backward from the end of the year before `from`: m counts down from there. */
  method SplitBackward(m0: int, from: int) returns (year: int, month: int, m: int)
    requires m0 < 0
    ensures 0 <= month < 12 && 0 <= m < DaysInMonth(Leap(year + 1900), month)
    ensures YearStart(from + 1900) + m0 == YearStart(year + 1900) + MonthStart(Leap(year + 1900), month) + m
  {
    m, year := m0, from - 1;
    var cycles := Quot(m, 146097) + 1;
    if cycles != 0 {
      m := m - cycles * 146097;
      year := year + cycles * 400;
    }
    YearStartCycle(from + 1900, cycles);
    var leap := Leap(year + 1900);
    while m < -(if leap then 366 else 365)
      invariant leap == Leap(year + 1900) && m < 0
      invariant YearStart(from + 1900) + m0 == YearStart(year + 1901) + m
      decreases -m
    {
      YearStartNext(year + 1900);
      m := m + (if leap then 366 else 365);
      year := year - 1;
      leap := Leap(year + 1900);
    }
    YearStartNext(year + 1900);
    MonthStartTable(leap, 12);
    month := 11;
    while m < -DaysInMonth(leap, month)
      invariant 0 <= month < 12 && m < 0
      invariant YearStart(from + 1900) + m0 == YearStart(year + 1900) + MonthStart(leap, month + 1) + m
      invariant MonthStart(leap, month + 1) + m >= 0
      decreases month
    {
      m := m + DaysInMonth(leap, month);
      month := month - 1;
    }
    m := m + DaysInMonth(leap, month);
  }

  /** Year, month and day (from 0) of a day number, with the shortcut to 2008. */
  method SplitDate(days: int) returns (year: int, month: int, m: int)
    ensures 0 <= month < 12
    ensures var leap, offset := Leap(year + 1900), days - YearStart(year + 1900);
      && InYear(days, year + 1900) && m == offset - MonthStart(leap, month)
      && MonthStart(leap, month) <= offset < MonthStart(leap, month + 1)
  {
    year, m := 70, days;
    if m >= CHEAT_DAYS {
      year := CHEAT_YEARS;
      m := m - CHEAT_DAYS;
    }
    CheatDays();
    if m >= 0 {
      year, month, m := SplitForward(m, year);
    } else {
      year, month, m := SplitBackward(m, year);
    }
    InMonth(days, year + 1900, month, m);
  }

  /** Either the exact year fits an int and p holds the time, or it does not and the call fails. */
  method Gmtime64(inTime: int64, p: Tm) returns (ok: bool)
    modifies p
    ensures ok ==> p.Describes(inTime) && -0x8000_0000 <= p.year < 0x8000_0000
    ensures !ok ==> exists y :: InYear(inTime / 86400, y) && !(-0x8000_0000 <= y - 1900 < 0x8000_0000)
  {
    hide InYear, YearStart, MonthStart, YdayTable, Leap;
    var sec, min, hour, days := SplitTime(inTime);
    var wday := Rem(days + 4, 7);
    if wday < 0 {
      wday := wday + 7;
    }
    var year, month, m := SplitDate(days);
    p.year := Truncated(year);
    if p.year != year {
      return false;
    }
    YdayTableRight(Leap(year + 1900), month);
    p.mday := m + 1;
    p.yday := YdayTable(Leap(year + 1900), month) + m;
    p.sec, p.min, p.hour, p.mon, p.wday := sec, min, hour, month, wday;
    return true;
  }

  /** For example: second 1234567890 was Friday, 2009-02-13 23:31:30, and second -1 the last of Wednesday, 1969-12-31. */
  lemma KnownTimes(p: Tm)
    ensures p.Describes(1234567890) ==>
      && p.year == 109 && p.mon == 1 && p.mday == 13 && p.hour == 23 && p.min == 31 && p.sec == 30 && p.wday == 5 && p.yday == 43
    ensures p.Describes(-1) ==>
      && p.year == 69 && p.mon == 11 && p.mday == 31 && p.hour == 23 && p.min == 59 && p.sec == 59 && p.wday == 3 && p.yday == 364
  {
    hide MonthStart, YearStart;
    if p.Describes(1234567890) {
      DayIs(p, 1234567890, 14288, 84690);
      YearStartClosed(2009);
      YearStartClosed(2010);
      MonthStartTable(false, 1);
      MonthStartTable(false, 2);
      DateIs(p, 14288, 2009, 1);
    }
    if p.Describes(-1) {
      DayIs(p, -1, -1, 86399);
      YearStartClosed(1969);
      YearStartClosed(1970);
      MonthStartTable(false, 11);
      MonthStartTable(false, 12);
      DateIs(p, -1, 1969, 11);
    }
  }

  lemma DayIs(p: Tm, time: int, day: int, clock: int)
    requires p.Describes(time) && time == 86400 * day + clock && 0 <= clock < 86400
    ensures time / 86400 == day && 3600 * p.hour + 60 * p.min + p.sec == clock
  {
  }

  lemma DateIs(p: Tm, day: int, year: int, mon: int)
    requires InYear(day, p.year + 1900) && InYear(day, year) && 0 <= mon < 12 && 0 <= p.mon < 12
    requires var leap, yday := Leap(year), day - YearStart(year);
      MonthStart(leap, mon) <= yday < MonthStart(leap, mon + 1)
    requires MonthStart(Leap(p.year + 1900), p.mon) <= day - YearStart(p.year + 1900) < MonthStart(Leap(p.year + 1900), p.mon + 1)
    ensures p.year + 1900 == year && p.mon == mon
  {
    InYearUnique(day, p.year + 1900, year);
    MonthUnique(Leap(year), day - YearStart(year), p.mon, mon);
  }

  lemma YdayTableRight(leap: bool, month: int)
    requires 0 <= month < 12
    ensures YdayTable(leap, month) == MonthStart(leap, month)
  {
    MonthStartTable(leap, month);
  }

  lemma CheatDays()
    ensures YearStart(2008) == CHEAT_DAYS && YearStart(1970) == 0
  {
    YearStartClosed(2008);
  }

  lemma InMonth(day: int, year: int, month: int, m: int)
    requires 0 <= month < 12 && 0 <= m < DaysInMonth(Leap(year), month)
    requires day == YearStart(year) + MonthStart(Leap(year), month) + m
    ensures InYear(day, year)
    ensures MonthStart(Leap(year), month) <= day - YearStart(year) < MonthStart(Leap(year), month + 1)
  {
    MonthStartTable(Leap(year), 12);
    MonthStartMonotone(Leap(year), 0, month);
    MonthStartMonotone(Leap(year), month + 1, 12);
    YearStartNext(year);
  }
}
