/** Nanosecond epoch times and their calendar fields. */
module NsTime {
  import opened Calendar
  import opened Gmtime

  const NSTMODULUS := 1_000_000_000
  const NSTERROR := -2145916800000000000
  const INT64_MAX := 0x7fff_ffff_ffff_ffff
  const INT64_MIN := -0x8000_0000_0000_0000

  /** Year, day of the year (from 1), time of day and nanoseconds. */
  datatype Fields = Fields(year: int, yday: int, hour: int, min: int, sec: int, nsec: int)

  predicate ValidYear(year: int) { 1678 <= year <= 2262 }
  predicate ValidYearDay(year: int, yday: int) { 1 <= yday <= YearLength(year) }
  predicate ValidMonth(month: int) { 1 <= month <= 12 }
  predicate ValidMonthDay(year: int, month: int, mday: int)
    requires ValidMonth(month)
  {
    1 <= mday <= DaysInMonth(Leap(year), month - 1)
  }

  predicate Valid(f: Fields) {
    && ValidYear(f.year) && ValidYearDay(f.year, f.yday)
    && 0 <= f.hour <= 23 && 0 <= f.min <= 59 && 0 <= f.sec <= 60 && 0 <= f.nsec <= 999_999_999
  }

  /** The exact number of nanoseconds from the epoch to the time the fields name. */
  ghost function Exact(f: Fields): int {
    (86400 * (YearStart(f.year) + f.yday - 1) + 3600 * f.hour + 60 * f.min + f.sec) * NSTMODULUS + f.nsec
  }

  // ---------- fields to time ----------

  function A4(shortyear: int): int {
    shortyear / 4 + 475 - (if shortyear % 4 == 0 then 1 else 0)
  }

  function A100(a4: int): int {
    Quot(a4, 25) - (if Rem(a4, 25) < 0 then 1 else 0)
  }

  function InterveningLeapDays(a4: int, a100: int, a400: int): int {
    (a4 - 492) - (a100 - 19) + (a400 - 4)
  }

  /** The source's shift-and-divide day count; >> rounds down, / towards zero. */
  function Days(year: int, yday: int): int {
    var shortyear := year - 1900;
    var a4 := A4(shortyear);
    var a100 := A100(a4);
    var a400 := a100 / 4;
    365 * (shortyear - 70) + InterveningLeapDays(a4, a100, a400) + (yday - 1)
  }

  /** The shift-and-divide formula is the day count, for every year. */
  lemma DaysRight(year: int, yday: int)
    ensures Days(year, yday) == YearStart(year) + yday - 1
  {
    YearStartClosed(year);
    DaysLeap(year - 1);
  }

  lemma DaysLeap(n: int)
    ensures A4(n - 1899) == n / 4 && A100(n / 4) == n / 100 && n / 100 / 4 == n / 400
  {
  }

  function Seconds(f: Fields): int {
    60 * (60 * (24 * Days(f.year, f.yday) + f.hour) + f.min) + f.sec
  }

  function TimeInt(f: Fields): int {
    var seconds := Seconds(f);
    if seconds > Quot(INT64_MAX - f.nsec, NSTMODULUS) || seconds < Quot(INT64_MIN, NSTMODULUS) then NSTERROR
    else seconds * NSTMODULUS + f.nsec
  }

  function Time2NsTime(f: Fields): int {
    if !ValidYear(f.year) then NSTERROR
    else if !ValidYearDay(f.year, f.yday) then NSTERROR
    else if !(0 <= f.hour <= 23) then NSTERROR
    else if !(0 <= f.min <= 59) then NSTERROR
    else if !(0 <= f.sec <= 60) then NSTERROR
    else if !(0 <= f.nsec <= 999_999_999) then NSTERROR
    else TimeInt(f)
  }

  /** Valid fields give their exact time whenever that fits 64 bits, and the error value otherwise. */
  lemma Time2NsTimeExact(f: Fields)
    ensures Time2NsTime(f) == if Valid(f) && Exact(f) <= INT64_MAX then Exact(f) else NSTERROR
    ensures Time2NsTime(f) ==
      if && 1678 <= f.year <= 2262 && 1 <= f.yday <= (if (f.year % 4 == 0 && f.year % 100 != 0) || f.year % 400 == 0 then 366 else 365)
         && 0 <= f.hour < 24 && 0 <= f.min < 60 && 0 <= f.sec <= 60 && 0 <= f.nsec < 1_000_000_000 && Exact(f) < 0x8000_0000_0000_0000
      then Exact(f) else -2145916800000000000
    ensures Valid(f) ==> INT64_MIN <= Exact(f)
    ensures INT64_MIN <= Time2NsTime(f) <= INT64_MAX
  {
    if Valid(f) {
      DaysRight(f.year, f.yday);
      YearStartMonotone(1678, f.year);
      YearStartClosed(1678);
    }
  }

  /** For example: the epoch, a time in 2009, and the last nanosecond before the epoch. */
  lemma KnownNanoseconds()
    ensures Exact(Fields(1970, 1, 0, 0, 0, 0)) == 0
    ensures Exact(Fields(2009, 44, 23, 31, 30, 123_456_789)) == 1_234_567_890_123_456_789
    ensures Exact(Fields(1969, 365, 23, 59, 59, 999_999_999)) == -1
  {
    hide YearStart;
    YearStartClosed(1969);
    YearStartClosed(1970);
    YearStartClosed(2009);
  }

  predicate FitsInt64(x: int) {
    INT64_MIN <= x <= INT64_MAX
  }

  /** For valid fields no step of the computation leaves its C type: those of the day count an int, those of the seconds an
      int64, and, once the guard has let the seconds pass, those of the nanoseconds an int64. */
  lemma NothingOverflows(f: Fields)
    requires Valid(f)
    ensures var shortyear := f.year - 1900; var a4 := A4(shortyear); var a100 := A100(a4);
      && FitsInt(shortyear) && FitsInt(a4) && FitsInt(a100) && FitsInt(a4 - 492) && FitsInt(a100 - 19) && FitsInt(a100 / 4 - 4)
      && FitsInt((a4 - 492) - (a100 - 19)) && FitsInt(InterveningLeapDays(a4, a100, a100 / 4)) && FitsInt(365 * (shortyear - 70))
      && FitsInt(365 * (shortyear - 70) + InterveningLeapDays(a4, a100, a100 / 4)) && FitsInt(f.yday - 1)
    ensures FitsInt(Days(f.year, f.yday)) && FitsInt64(24 * Days(f.year, f.yday))
    ensures FitsInt64(60 * (24 * Days(f.year, f.yday) + f.hour)) && FitsInt64(Seconds(f))
    ensures !(Seconds(f) > Quot(INT64_MAX - f.nsec, NSTMODULUS) || Seconds(f) < Quot(INT64_MIN, NSTMODULUS)) ==>
      FitsInt64(Seconds(f) * NSTMODULUS) && FitsInt64(Seconds(f) * NSTMODULUS + f.nsec)
  {
    DaysLeap(f.year - 1);
  }

  lemma YearDayIs(year: int, yday: int, day: int, year': int)
    requires ValidYearDay(year, yday) && YearStart(year) + yday - 1 == day && InYear(day, year')
    ensures year == year'
  {
    YearStartNext(year);
    InYearUnique(day, year, year');
  }

  /** The error value is also the honest time of one instant, 1902-01-01T00:00:00, under its two names. */
  lemma ErrorIsAmbiguous(f: Fields)
    requires Valid(f)
    ensures Exact(f) == NSTERROR <==> f in {Fields(1902, 1, 0, 0, 0, 0), Fields(1901, 365, 23, 59, 60, 0)}
  {
    YearStartClosed(1901);
    YearStartClosed(1902);
    YearStartClosed(1903);
    var day := YearStart(f.year) + f.yday - 1;
    var clock := 3600 * f.hour + 60 * f.min + f.sec;
    if Exact(f) == NSTERROR {
      assert 86400 * day + clock == -2145916800;
      if day == -24837 {
        YearDayIs(f.year, f.yday, day, 1902);
      } else {
        assert day == -24838 && clock == 86400;
        YearDayIs(f.year, f.yday, day, 1901);
      }
    }
  }

  // ---------- time to fields ----------

  /** The fields spell out exactly this time, without a leap second. */
  ghost predicate Describes(f: Fields, nstime: int) {
    && 1 <= f.yday <= YearLength(f.year)
    && 0 <= f.hour <= 23 && 0 <= f.min <= 59 && 0 <= f.sec <= 59 && 0 <= f.nsec <= 999_999_999
    && Exact(f) == nstime
  }

  /** Whole seconds and nanoseconds, rounding down also before the epoch. */
  method SplitNanoseconds(nstime: int64) returns (isec: int, ifract: int)
    ensures nstime == isec * NSTMODULUS + ifract && 0 <= ifract <= 999_999_999
    ensures -9223372037 <= isec <= 9223372036
  {
    isec := Quot(nstime, NSTMODULUS);
    ifract := nstime - isec * NSTMODULUS;
    if nstime < 0 && ifract != 0 {
      isec := isec - 1;
      ifract := NSTMODULUS - (-ifract);
    }
  }

  method NsTime2Time(nstime: int64) returns (f: Fields)
    ensures Describes(f, nstime)
    ensures 1677 <= f.year <= 2262
    ensures f.year >= 1678 <==> nstime >= Exact(Fields(1678, 1, 0, 0, 0, 0))
  {
    hide InYear, YearStart, MonthStart;
    var isec, ifract := SplitNanoseconds(nstime);
    YearBounds(isec);
    var tms := new Tm();
    var ok := Gmtime64(isec, tms);
    if !ok {
      InYearFits(isec / 86400);
      assert false;
    }
    f := Fields(tms.year + 1900, tms.yday + 1, tms.hour, tms.min, tms.sec, ifract);
    SameYear(isec / 86400, f.year);
    InYearLength(isec / 86400, f.year);
  }

  lemma InYearLength(day: int, year: int)
    requires InYear(day, year)
    ensures 0 <= day - YearStart(year) < YearLength(year)
  {
    YearStartNext(year);
  }

  /** Every 64-bit nanosecond time lies in the years 1677 to 2262. */
  lemma YearBounds(isec: int)
    requires -9223372037 <= isec <= 9223372036
    ensures YearStart(1677) <= isec / 86400 < YearStart(2263)
    ensures isec / 86400 >= YearStart(1678) <==> isec >= 86400 * YearStart(1678)
  {
    YearStartClosed(1677);
    YearStartClosed(1678);
    YearStartClosed(2263);
  }

  lemma SameYear(day: int, year: int)
    requires YearStart(1677) <= day < YearStart(2263) && InYear(day, year)
    ensures 1677 <= year <= 2262
    ensures year >= 1678 <==> day >= YearStart(1678)
  {
    if year < 1677 { YearStartMonotone(year + 1, 1677); }
    if year > 2262 { YearStartMonotone(2263, year); }
    if year >= 1678 { YearStartMonotone(1678, year); } else { YearStartMonotone(year + 1, 1678); }
  }

  lemma InYearFits(day: int)
    requires YearStart(1677) <= day < YearStart(2263)
    ensures forall y :: InYear(day, y) ==> FitsInt(y - 1900)
  {
    forall y | InYear(day, y) ensures FitsInt(y - 1900) {
      SameYear(day, y);
    }
  }

  /** Two leap-second-free descriptions of one time are the same. */
  lemma DescribesUnique(f: Fields, g: Fields, nstime: int)
    requires Describes(f, nstime) && Describes(g, nstime)
    ensures f == g
  {
    var dayF, dayG := YearStart(f.year) + f.yday - 1, YearStart(g.year) + g.yday - 1;
    var clockF, clockG := 3600 * f.hour + 60 * f.min + f.sec, 3600 * g.hour + 60 * g.min + g.sec;
    assert 86400 * dayF + clockF == 86400 * dayG + clockG && f.nsec == g.nsec;
    assert dayF == dayG && clockF == clockG;
    YearStartNext(g.year);
    YearDayIs(f.year, f.yday, dayF, g.year);
  }

  /** Time to fields and back: the identity from 1678 on, the error value before. */
  method RoundTrip(nstime: int64) returns (back: int)
    ensures back == if nstime >= Exact(Fields(1678, 1, 0, 0, 0, 0)) then nstime else NSTERROR
  {
    var f := NsTime2Time(nstime);
    Time2NsTimeExact(f);
    back := Time2NsTime(f);
  }

  /** Fields to time and back: the identity exactly on valid fields whose time fits 64 bits and that name no leap second;
      those that do name one come back as the same time under its other name. */
  method FieldsRoundTrip(f: Fields) returns (back: Fields)
    ensures back == f <==> Valid(f) && Exact(f) <= INT64_MAX && f.sec <= 59
    ensures Valid(f) && Exact(f) <= INT64_MAX ==> Exact(back) == Exact(f)
  {
    Time2NsTimeExact(f);
    var nstime := Time2NsTime(f);
    back := NsTime2Time(nstime);
    YearStartClosed(1678);
    if Valid(f) && Exact(f) <= INT64_MAX && f.sec <= 59 { DescribesUnique(f, back, nstime); }
  }

  // ---------- day of year and month ----------

  method DayOfYear2MonthDay(year: int, yday: int) returns (ok: bool, month: int, mday: int)
    ensures ok <==> ValidYear(year) && ValidYearDay(year, yday)
    ensures ok <==> 1678 <= year <= 2262 && 1 <= yday <= (if (year % 4 == 0 && year % 100 != 0) || year % 400 == 0 then 366 else 365)
    ensures ok ==> ValidMonth(month) && ValidMonthDay(year, month, mday)
    ensures ok ==> MonthStart(Leap(year), month - 1) + mday == yday
  {
    month, mday := 0, 0;
    if !ValidYear(year) { return false, 0, 0; }
    if !ValidYearDay(year, yday) { return false, 0, 0; }
    ok := true;
    var leap, rest, idx := Leap(year), yday, 0;
    MonthStartTable(leap, 12);
    while idx < 12
      invariant 0 <= idx < 12 && rest == yday - MonthStart(leap, idx) && rest > 0
    {
      MonthStartMonotone(leap, idx + 1, 12);
      rest := rest - DaysInMonth(leap, idx);
      if rest <= 0 {
        month, mday := idx + 1, DaysInMonth(leap, idx) + rest;
        break;
      }
      idx := idx + 1;
    }
  }

  method MonthDay2DayOfYear(year: int, month: int, mday: int) returns (ok: bool, yday: int)
    ensures ok <==> ValidYear(year) && ValidMonth(month) && ValidMonthDay(year, month, mday)
    ensures ok ==> ValidYearDay(year, yday) && yday == MonthStart(Leap(year), month - 1) + mday
  {
    yday := 0;
    if !ValidYear(year) { return false, 0; }
    if !ValidMonth(month) { return false, 0; }
    if !ValidMonthDay(year, month, mday) { return false, 0; }
    ok := true;
    var leap, idx := Leap(year), 0;
    while idx < 12
      invariant 0 <= idx <= month - 1 && yday == MonthStart(leap, idx)
    {
      if idx == month - 1 {
        yday := yday + mday;
        break;
      }
      yday := yday + DaysInMonth(leap, idx);
      idx := idx + 1;
    }
    MonthStartTable(leap, 12);
    MonthStartMonotone(leap, month, 12);
    MonthStartMonotone(leap, 0, month - 1);
  }

  /** The two conversions are inverse: a day of the year is one day of one month. */
  method YearDayRoundTrip(year: int, yday: int) returns (ok: bool, back: int)
    ensures ok <==> ValidYear(year) && ValidYearDay(year, yday)
    ensures ok ==> back == yday
  {
    var month, mday;
    ok, month, mday := DayOfYear2MonthDay(year, yday);
    if !ok { return false, 0; }
    ok, back := MonthDay2DayOfYear(year, month, mday);
  }

  method MonthDayRoundTrip(year: int, month: int, mday: int) returns (ok: bool, month': int, mday': int)
    ensures ok <==> ValidYear(year) && ValidMonth(month) && ValidMonthDay(year, month, mday)
    ensures ok ==> month' == month && mday' == mday
  {
    var yday;
    ok, yday := MonthDay2DayOfYear(year, month, mday);
    if !ok { return false, 0, 0; }
    ok, month', mday' := DayOfYear2MonthDay(year, yday);
    MonthUnique(Leap(year), yday - 1, month - 1, month' - 1);
  }
}
