/**
 Calendar time: breaking seconds since the Epoch down by counting years and months, and the closed formula that
 goes back.
 */
module Calendar {
  const SPD: int := 24 * 60 * 60

  /** Days before each month of a common year; the last entry is the whole year. */
  const SPM: seq<int> := [0, 31, 59, 90, 120, 151, 181, 212, 243, 273, 304, 334, 365]

  // ---- The language's division: truncating ----

  function Quot(a: int, b: int): (q: int)
    requires b > 0
  {
    if a >= 0 then a / b else -((-a) / b)
  }

  function Rem(a: int, b: int): (r: int)
    requires b > 0
  {
    a - Quot(a, b) * b
  }

  lemma QuotRem(a: int, b: int)
    requires b > 0
    ensures a == Quot(a, b) * b + Rem(a, b)
            && (a >= 0 ==> 0 <= Rem(a, b) < b && Quot(a, b) == a / b && Rem(a, b) == a % b)
    ensures a < 0 ==> -b < Rem(a, b) <= 0 && Quot(a, b) <= 0
  {
    if a >= 0 { DivMod(a, b); } else { DivMod(-a, b); }
  }

  lemma DivMod(a: int, b: int)
    requires a >= 0 && b > 0
    ensures a == a / b * b + a % b && 0 <= a % b < b && a / b >= 0
  {}

  // ---- The calendar ----

  datatype Fields = Fields(sec: int, min: int, hour: int, mday: int, mon: int, year: int, wday: int, yday: int)

  predicate Leap(year: int) { year % 4 == 0 && (year % 100 != 0 || year % 400 == 0) }

  function YearLength(year: int): int { if Leap(year) then 366 else 365 }

  /** Days from the first day of 1970 to the first day of a year. */
  function DaysBefore(year: int): (d: int)
    requires year >= 1970
    ensures d >= 0
    decreases year
  {
    if year == 1970 then 0 else DaysBefore(year - 1) + YearLength(year - 1)
  }

  function MonthLength(leap: bool, mon: int): int
    requires 0 <= mon < 12
  {
    SPM[mon + 1] - SPM[mon] + if leap && mon == 1 then 1 else 0
  }

  /** Days of the year before a day of a month. */
  function DayOfYear(leap: bool, mon: int, mday: int): int
    requires 0 <= mon < 12
  {
    SPM[mon] + mday - 1 + if leap && mon > 1 then 1 else 0
  }

  function DayNumber(f: Fields): int
    requires f.year >= 70 && 0 <= f.mon < 12
  {
    DaysBefore(f.year + 1900) + DayOfYear(Leap(f.year + 1900), f.mon, f.mday)
  }

  /** Seconds since the Epoch. */
  function Seconds(f: Fields): int
    requires f.year >= 70 && 0 <= f.mon < 12
  {
    ((DayNumber(f) * 24 + f.hour) * 60 + f.min) * 60 + f.sec
  }

  /** A date from 1970 on, a time of day, and the matching day of week and year. */
  predicate Normal(f: Fields) {
    && f.year >= 70 && 0 <= f.mon < 12 && 1 <= f.mday <= MonthLength(Leap(f.year + 1900), f.mon)
    && 0 <= f.hour < 24 && 0 <= f.min < 60 && 0 <= f.sec < 60
    && f.yday == DayOfYear(Leap(f.year + 1900), f.mon, f.mday) && f.wday == (DayNumber(f) + 4) % 7
  }

  /** Calendar order of two dates with time. */
  predicate Earlier(f: Fields, g: Fields) {
    if f.year != g.year then f.year < g.year
    else if f.mon != g.mon then f.mon < g.mon
    else if f.mday != g.mday then f.mday < g.mday
    else if f.hour != g.hour then f.hour < g.hour
    else if f.min != g.min then f.min < g.min
    else f.sec < g.sec
  }

  lemma {:induction false} LaterYearsBeginLater(y: int, z: int)
    requires 1970 <= y < z
    ensures DaysBefore(z) >= DaysBefore(y) + YearLength(y)
    decreases z
  {
    if z > y + 1 { LaterYearsBeginLater(y, z - 1); }
  }

  lemma DaysOfMonths(leap: bool, mon: int, mday: int, mon': int, mday': int)
    requires 0 <= mon < 12 && 0 <= mon' < 12 && 1 <= mday <= MonthLength(leap, mon)
             && 1 <= mday' <= MonthLength(leap, mon')
    ensures 0 <= DayOfYear(leap, mon, mday) < (if leap then 366 else 365)
    ensures mon < mon' ==> DayOfYear(leap, mon, mday) < DayOfYear(leap, mon', mday')
  {}

  lemma EarlierDay(f: Fields, g: Fields)
    requires Normal(f) && Normal(g)
             && (f.year < g.year || (f.year == g.year && (f.mon < g.mon || (f.mon == g.mon && f.mday < g.mday))))
    ensures DayNumber(f) + 1 <= DayNumber(g)
  {
    var lf, lg := Leap(f.year + 1900), Leap(g.year + 1900);
    DaysOfMonths(lf, f.mon, f.mday, f.mon, f.mday);
    DaysOfMonths(lg, g.mon, g.mday, g.mon, g.mday);
    if f.year < g.year {
      LaterYearsBeginLater(f.year + 1900, g.year + 1900);
    } else {
      DaysOfMonths(lf, f.mon, f.mday, g.mon, g.mday);
    }
  }

  lemma EarlierIsLess(f: Fields, g: Fields)
    requires Normal(f) && Normal(g) && Earlier(f, g)
    ensures Seconds(f) < Seconds(g)
  {
    if f.year == g.year && f.mon == g.mon && f.mday == g.mday {
    } else {
      EarlierDay(f, g);
    }
  }

  /** Seconds order dates exactly as the calendar does, and different dates have different seconds. */
  lemma SecondsOrderDates(f: Fields, g: Fields)
    requires Normal(f) && Normal(g)
    ensures Earlier(f, g) <==> Seconds(f) < Seconds(g)
    ensures Seconds(f) == Seconds(g) <==> f == g
  {
    hide Normal, Seconds;
    if Earlier(f, g) { EarlierIsLess(f, g); }
    else if Earlier(g, f) { EarlierIsLess(g, f); }
    else { SameFields(f, g); }
  }

  lemma SameFields(f: Fields, g: Fields)
    requires Normal(f) && Normal(g) && !Earlier(f, g) && !Earlier(g, f)
    ensures f == g
  {}

  // ---- Breaking down ----

  /** Year and day of the year, counting years from `i`. */
  function YearFrom(i: int, work: int): (int, int)
    decreases work
  {
    if work >= YearLength(i) then YearFrom(i + 1, work - YearLength(i)) else (i, work)
  }

  /** The last month, going down from `i`, that begins on or before a day. */
  function MonthFrom(i: nat, work: int): (m: nat)
    requires i < 12
    ensures m <= i && (m > 0 ==> SPM[m] <= work) && (m < i ==> SPM[m + 1] > work)
  {
    if i > 0 && SPM[i] > work then MonthFrom(i - 1, work) else i
  }

  /** `gmtime_r`. */
  function BrokenDown(t: int): Fields {
    var time, day := Rem(t, SPD), Quot(t, SPD);
    var (year, yday) := YearFrom(1970, day);
    var late := Leap(year) && yday > 58;
    var work := if late then yday - 1 else yday;
    var mon := MonthFrom(11, work);
    Fields(Rem(time, 60), Rem(Quot(time, 60), 60), Quot(Quot(time, 60), 60),
           (if late && yday == 59 then 2 else 1) + work - SPM[mon], mon, year - 1900, Rem(4 + day, 7), yday)
  }

  lemma {:induction false} YearFound(i: int, work: int)
    requires i >= 1970
    ensures var (year, yday) := YearFrom(i, work);
            year >= i && DaysBefore(i) + work == DaysBefore(year) + yday
            && (if work >= 0 then 0 <= yday < YearLength(year) else year == i && yday == work)
    decreases work
  {
    if work >= YearLength(i) {
      YearFound(i + 1, work - YearLength(i));
    }
  }

  /** The month search with its correction for the 29th of February. */
  lemma MonthFound(leap: bool, yday: int)
    requires yday < if leap then 366 else 365
    ensures var late := leap && yday > 58;
            var work := if late then yday - 1 else yday;
            var mon := MonthFrom(11, work);
            var mday := (if late && yday == 59 then 2 else 1) + work - SPM[mon];
            DayOfYear(leap, mon, mday) == yday && (yday >= 0 ==> 1 <= mday <= MonthLength(leap, mon))
                && (yday <= 0 ==> mon == 0)
  {}

  lemma TimeOfDay(time: int)
    requires -SPD < time < SPD
    ensures var m := Quot(time, 60);
            (Quot(m, 60) * 60 + Rem(m, 60)) * 60 + Rem(time, 60) == time
            && (time >= 0 ==> 0 <= Quot(m, 60) < 24 && 0 <= Rem(m, 60) < 60 && 0 <= Rem(time, 60) < 60)
            && (time <= 0 ==> Quot(m, 60) <= 0 && Rem(m, 60) <= 0 && Rem(time, 60) <= 0)
  {
    QuotRem(time, 60);
    QuotRem(Quot(time, 60), 60);
  }

  lemma DayFound(day: int)
    ensures var (year, yday) := YearFrom(1970, day);
            var late := Leap(year) && yday > 58;
            var work := if late then yday - 1 else yday;
            var mon := MonthFrom(11, work);
            var mday := (if late && yday == 59 then 2 else 1) + work - SPM[mon];
            && year >= 1970 && DaysBefore(year) + DayOfYear(Leap(year), mon, mday) == day
            && DayOfYear(Leap(year), mon, mday) == yday
            && (day >= 0 ==> 1 <= mday <= MonthLength(Leap(year), mon))
            && (day <= 0 ==> year == 1970 && mon == 0 && mday <= 1)
  {
    hide MonthFrom, YearFrom;
    YearFound(1970, day);
    var (year, yday) := YearFrom(1970, day);
    if day == 0 && year > 1970 { LaterYearsBeginLater(1970, year); }
    MonthFound(Leap(year), yday);
  }

  /** Breaking down loses nothing, for every time; from the Epoch on the result is a normal date. */
  lemma BrokenDownKeepsTime(t: int)
    ensures var f := BrokenDown(t);
            f.year >= 70 && 0 <= f.mon < 12 && Seconds(f) == t
            && (t >= 0 ==> Normal(f))
            && (t < 0 ==> f.year == 70 && f.mon == 0 && f.mday <= 1 && f.hour <= 0 && f.min <= 0 && f.sec <= 0)
  {
    hide Quot, Rem, MonthFrom, YearFrom, DayOfYear, MonthLength, DaysBefore, Leap, Seconds;
    var time, day := Rem(t, SPD), Quot(t, SPD);
    QuotRem(t, SPD);
    TimeOfDay(time);
    DayFound(day);
    QuotRem(4 + day, 7);
    var f := BrokenDown(t);
    assert DayNumber(f) == day;
    SecondsOfParts(f, day, time);
  }

  lemma SecondsOfParts(f: Fields, day: int, time: int)
    requires f.year >= 70 && 0 <= f.mon < 12 && DayNumber(f) == day && (f.hour * 60 + f.min) * 60 + f.sec == time
    ensures Seconds(f) == day * SPD + time
  {
    hide DayNumber;
  }

  // ---- The calendar, day by day ----

  /** Thirty days hath September, April, June and November. */
  function DaysIn(year: int, mon: int): int {
    if mon in {3, 5, 8, 10} then 30
    else if mon == 1 then (if (year % 4 == 0 && year % 100 != 0) || year % 400 == 0 then 29 else 28)
    else 31
  }

  lemma MonthLengths(year: int, mon: int)
    requires 0 <= mon < 12
    ensures MonthLength(Leap(year), mon) == DaysIn(year, mon)
  {}

  /** The day after a date, at the same time of day. */
  function NextDay(f: Fields): Fields {
    var wday := if f.wday == 6 then 0 else f.wday + 1;
    if f.mday < DaysIn(f.year + 1900, f.mon) then f.(mday := f.mday + 1, yday := f.yday + 1, wday := wday)
    else if f.mon < 11 then f.(mday := 1, mon := f.mon + 1, yday := f.yday + 1, wday := wday)
    else f.(mday := 1, mon := 0, year := f.year + 1, yday := 0, wday := wday)
  }

  lemma NextDayOfYear(f: Fields)
    requires Normal(f)
    ensures var g := NextDay(f);
            g.year >= 70 && 0 <= g.mon < 12 && 1 <= g.mday <= MonthLength(Leap(g.year + 1900), g.mon)
            && DayNumber(g) == DayNumber(f) + 1 && g.yday == DayOfYear(Leap(g.year + 1900), g.mon, g.mday)
  {
    MonthLengths(f.year + 1900, f.mon);
    assert f.mon == 11 ==> DaysBefore(f.year + 1901) == DaysBefore(f.year + 1900) + YearLength(f.year + 1900);
  }

  lemma NextDayIsNormal(f: Fields)
    requires Normal(f)
    ensures Normal(NextDay(f)) && Seconds(NextDay(f)) == Seconds(f) + 86400
  {
    hide DayOfYear, MonthLength, DaysBefore, DayNumber, DaysIn;
    NextDayOfYear(f);
    assert f.wday == (DayNumber(f) + 4) % 7;
  }

  /** The Epoch is Thursday, the first of January 1970, and a day later it is the next day of the calendar: together
      with the time of day this says what date any later time is. */
  lemma DayByDay(t: int)
    requires t >= 0
    ensures BrokenDown(0) == Fields(0, 0, 0, 1, 0, 70, 4, 0)
    ensures BrokenDown(t + 86400) == NextDay(BrokenDown(t))
    ensures t < 86400 ==> BrokenDown(t) == BrokenDown(0).(sec := t % 60, min := t / 60 % 60, hour := t / 3600)
  {
    hide BrokenDown, Normal, Seconds, NextDay;
    BrokenDownKeepsTime(t);
    BrokenDownKeepsTime(t + 86400);
    NextDayIsNormal(BrokenDown(t));
    SecondsOrderDates(NextDay(BrokenDown(t)), BrokenDown(t + 86400));
    BrokenDownKeepsTime(0);
    TimeOfFirstDay(0);
    var first := Fields(0, 0, 0, 1, 0, 70, 4, 0);
    SecondsOrderDates(BrokenDown(0), first);
    if t < 86400 {
      TimeOfFirstDay(t);
      SecondsOrderDates(BrokenDown(t), first.(sec := t % 60, min := t / 60 % 60, hour := t / 3600));
    }
  }

  lemma NewYear1970(f: Fields)
    requires f.year == 70 && f.mon == 0 && f.mday == 1
    ensures DayNumber(f) == 0 == DayOfYear(Leap(f.year + 1900), 0, 1) && MonthLength(Leap(f.year + 1900), 0) == 31
  {}

  lemma TimeOfFirstDay(t: int)
    requires 0 <= t < 86400
    ensures var f := Fields(t % 60, t / 60 % 60, t / 3600, 1, 0, 70, 4, 0); Normal(f) && Seconds(f) == t
  {
    hide DayNumber, DayOfYear, MonthLength, Leap;
    NewYear1970(Fields(t % 60, t / 60 % 60, t / 3600, 1, 0, 70, 4, 0));
    HoursAndMinutes(t);
  }

  lemma HoursAndMinutes(t: int)
    requires 0 <= t < 86400
    ensures (t / 3600 * 60 + t / 60 % 60) * 60 + t % 60 == t && 0 <= t / 3600 < 24
  {}

  // ---- Going back ----

  /** Carries of seconds, minutes, hours and months into the next field, as far as the code goes. */
  function Carried(f0: Fields): Fields {
    var f1 := if f0.sec > 60 then f0.(min := f0.min + Quot(f0.sec, 60), sec := Rem(f0.sec, 60)) else f0;
    var f2 := if f1.min > 60 then f1.(hour := f1.hour + Quot(f1.min, 60), min := Rem(f1.min, 60)) else f1;
    var f3 := if f2.hour > 24 then f2.(mday := f2.mday + Quot(f2.hour, 24), hour := Rem(f2.hour, 24)) else f2;
    if f3.mon > 12 then f3.(year := f3.year + Quot(f3.mon, 12), mon := Rem(f3.mon, 12)) else f3
  }

  /** Days running past the table carried into months. The bound and the amount taken off are the days of the year
      before a month, not the month's length. */
  function MonthsCarried(f: Fields): (g: Fields)
    requires 0 <= f.mon < 12
    ensures 0 <= g.mon < 12 && g.mday <= SPM[g.mon + 1] && g.year >= f.year
    ensures g.sec == f.sec && g.min == f.min && g.hour == f.hour
    decreases f.mday, 12 - f.mon
  {
    if f.mday > SPM[1 + f.mon] then MonthsCarried(NextMonth(f)) else f
  }

  function NextMonth(f: Fields): Fields
    requires 0 <= f.mon < 12
  {
    var mday := f.mday - (if f.mon == 1 && Leap(f.year + 1900) then 1 else 0) - SPM[f.mon];
    f.(mday := mday, mon := if f.mon + 1 > 11 then 0 else f.mon + 1,
        year := if f.mon + 1 > 11 then f.year + 1 else f.year)
  }

  lemma MonthsCarriedStep(f: Fields)
    requires 0 <= f.mon < 12 && f.mday > SPM[1 + f.mon]
    ensures MonthsCarried(f) == MonthsCarried(NextMonth(f)) && 0 <= NextMonth(f).mon < 12
    ensures NextMonth(f).mday < f.mday || (NextMonth(f).mday == f.mday && NextMonth(f).mon > f.mon)
  {
    hide Leap;
  }

  /** Leap days of the years before `70 + years` that the Gregorian calendar leaves out. */
  function CenturyDays(years: int): int {
    if years >= 131 then
      var c := (years - 131) / 100;
      c / 4 * 3 + 1 + if c % 4 == 3 then 2 else c % 4
    else 0
  }

  /** The day number of the first day of a year, counted from 1970. */
  function DayFormula(years: int): int {
    years * 365 + Quot(years + 1, 4) - CenturyDays(years)
  }

  /** `mktime`: the fields it leaves behind and its result. Years are counted before anything is carried. */
  function Made(f0: Fields): (r: (Fields, int))
    requires 0 <= f0.mon < 12 || f0.mon > 12
  {
    QuotRem(f0.mon, 12);
    var f := MonthsCarried(Carried(f0));
    if f.year < 70 then (f, -1)
    else
      var yday := DayOfYear(Leap(f.year + 1900), f.mon, f.mday);
      var day := DayFormula(f0.year - 70) + yday;
      (f.(yday := yday, wday := Rem(day + 4, 7)), ((day * 24 + f.hour) * 60 + f.min) * 60 + f.sec)
  }

  /** The century correction counts the years divisible by 100 but not by 400. */
  lemma CenturyDaysCount(years: int)
    requires years >= 0
    ensures CenturyDays(years) == (years + 69) / 100 - (years + 369) / 400
  {
    if years >= 131 {
      var c := (years - 131) / 100;
      assert (years + 69) / 100 == c + 2;
      assert (years + 369) / 400 == (c + 5) / 4;
    }
  }

  /** The formula of section 4.16 (Seconds Since the Epoch) of POSIX.1-2017 Base Definitions, in days. */
  function PosixDays(year: int): int {
    (year - 70) * 365 + Fourths(year) - Hundredths(year) + FourHundredths(year)
  }

  function Fourths(year: int): int { (year - 69) / 4 }

  function Hundredths(year: int): int { (year - 1) / 100 }

  function FourHundredths(year: int): int { (year + 299) / 400 }

  lemma DayFormulaIsPosix(years: int)
    requires years >= 0
    ensures DayFormula(years) == PosixDays(years + 70)
  {
    CenturyDaysCount(years);
  }

  lemma PosixStep(year: int)
    requires year >= 70
    ensures PosixDays(year + 1) == PosixDays(year) + YearLength(year + 1900)
  {
    hide Fourths, Hundredths, FourHundredths;
    FourthYears(year);
    Centuries(year);
    FourthCenturies(year);
  }

  lemma FourthYears(year: int)
    ensures Fourths(year + 1) - Fourths(year) == if (year + 1900) % 4 == 0 then 1 else 0
  {}

  lemma Centuries(year: int)
    ensures Hundredths(year + 1) - Hundredths(year) == if (year + 1900) % 100 == 0 then 1 else 0
  {}

  lemma FourthCenturies(year: int)
    ensures FourHundredths(year + 1) - FourHundredths(year) == if (year + 1900) % 400 == 0 then 1 else 0
  {}

  /** For all years from 1970 on the closed formula counts the days of the years before. */
  lemma {:induction false} DayFormulaCountsDays(years: int)
    requires years >= 0
    ensures DayFormula(years) == PosixDays(years + 70) == DaysBefore(years + 1970)
  {
    hide DayFormula;
    DayFormulaIsPosix(years);
    if years > 0 {
      DayFormulaCountsDays(years - 1);
      PosixStep(years + 69);
    } else {
      assert DayFormula(0) == 0 by { DayFormulaIsPosix(0); }
    }
  }

  /** Carrying conserves the time of day, in seconds before the month loop. */
  lemma CarriedKeepsTime(f: Fields)
    ensures var g := Carried(f);
            (((g.mday - f.mday) * 24 + g.hour) * 60 + g.min) * 60 + g.sec == (f.hour * 60 + f.min) * 60 + f.sec
            && (f.mon <= 12 ==> g.mon == f.mon && g.year == f.year)
  {
    hide Quot, Rem;
    QuotRem(f.sec, 60);
    var f1 := if f.sec > 60 then f.(min := f.min + Quot(f.sec, 60), sec := Rem(f.sec, 60)) else f;
    QuotRem(f1.min, 60);
    var f2 := if f1.min > 60 then f1.(hour := f1.hour + Quot(f1.min, 60), min := Rem(f1.min, 60)) else f1;
    QuotRem(f2.hour, 24);
  }

  /** For every set of fields that does not run past the month table, from 1970 on, the result is the number of seconds
      since the Epoch, whatever seconds, minutes and hours have to be carried. */
  lemma MadeIsSeconds(f: Fields)
    requires f.year >= 70 && 0 <= f.mon < 12 && Carried(f).mday <= SPM[f.mon + 1]
    ensures Made(f).1 == Seconds(f)
    ensures Seconds(Made(f).0) == Seconds(f)
  {
    hide Quot, Rem, Carried, DayFormula, DaysBefore, Leap;
    CarriedKeepsTime(f);
    DayFormulaCountsDays(f.year - 70);
  }

  lemma NormalIsNotCarried(f: Fields)
    requires Normal(f)
    ensures Carried(f) == f && f.mday <= SPM[f.mon + 1] && MonthsCarried(f) == f
  {}

  /** `mktime` undoes `gmtime_r`, before and after the Epoch. */
  lemma MadeFromBrokenDown(t: int)
    ensures Made(BrokenDown(t)).1 == t
  {
    hide Made, BrokenDown, Seconds, Normal;
    var f := BrokenDown(t);
    BrokenDownKeepsTime(t);
    BrokenDownIsNotCarried(t);
    MadeIsSeconds(f);
  }

  lemma BrokenDownIsNotCarried(t: int)
    ensures var f := BrokenDown(t); 0 <= f.mon < 12 && Carried(f).mday <= SPM[f.mon + 1]
  {
    hide BrokenDown, Seconds, Normal;
    BrokenDownKeepsTime(t);
    if t >= 0 { NormalIsNotCarried(BrokenDown(t)); }
  }

  /** `gmtime_r` undoes `mktime` on every normal date, and `mktime` leaves such a date as it is. */
  lemma BrokenDownFromMade(f: Fields)
    requires Normal(f)
    ensures BrokenDown(Made(f).1) == f && Made(f).0 == f
  {
    hide BrokenDown, Made, Seconds, Normal;
    NormalIsNotCarried(f);
    MadeKeepsNormal(f);
    NormalInRange(f);
    MadeIsSeconds(f);
    NonNegativeSeconds(f);
    BrokenDownKeepsTime(Seconds(f));
    SecondsOrderDates(f, BrokenDown(Seconds(f)));
  }

  lemma NormalInRange(f: Fields)
    requires Normal(f)
    ensures f.year >= 70 && 0 <= f.mon < 12
  {}

  lemma MadeKeepsNormal(f: Fields)
    requires Normal(f)
    ensures Made(f).0 == f
  {
    hide DayFormula, DaysBefore, Leap, MonthLength;
    NormalIsNotCarried(f);
    DayFormulaCountsDays(f.year - 70);
    NonNegativeSeconds(f);
    QuotRem(DayNumber(f) + 4, 7);
  }

  lemma NonNegativeSeconds(f: Fields)
    requires Normal(f)
    ensures Seconds(f) >= 0 && DayNumber(f) >= 0
  {
    DaysOfMonths(Leap(f.year + 1900), f.mon, f.mday, f.mon, f.mday);
  }

  lemma {:induction false} FormulaGrows(a: int, b: int)
    requires 0 <= a < b
    ensures DayFormula(a) < DayFormula(b)
  {
    hide DayFormula;
    DayFormulaCountsDays(a);
    DayFormulaCountsDays(b);
    LaterYearsBeginLater(a + 1970, b + 1970);
  }

  /** The largest day that the month loop, starting at a month, carries no further than to December. */
  function DayRoom(mon: int, leap: bool): (d: int)
    requires 0 <= mon < 12
    ensures d >= 365
    decreases 12 - mon
  {
    if mon == 11 then 365 else SPM[mon] + (if mon == 1 && leap then 1 else 0) + DayRoom(mon + 1, leap)
  }

  /** The month loop leaves the year alone exactly for days up to that bound. */
  lemma {:induction false} YearKeptIff(f: Fields)
    requires 0 <= f.mon < 12
    ensures MonthsCarried(f).year == f.year <==> f.mday <= DayRoom(f.mon, Leap(f.year + 1900))
    decreases f.mday, 12 - f.mon
  {
    hide Leap, MonthsCarried, DayRoom;
    RoomOfMonth(f.mon, Leap(f.year + 1900));
    if f.mday > SPM[1 + f.mon] {
      MonthsCarriedStep(f);
      if f.mon < 11 { YearKeptIff(NextMonth(f)); }
    } else {
      StaysInMonth(f);
    }
  }

  lemma RoomOfMonth(mon: int, leap: bool)
    requires 0 <= mon < 12
    ensures DayRoom(mon, leap) ==
            if mon == 11 then 365 else SPM[mon] + (if mon == 1 && leap then 1 else 0) + DayRoom(mon + 1, leap)
    ensures SPM[mon + 1] <= 365 <= DayRoom(mon, leap) && (mon == 11 ==> SPM[mon + 1] == 365)
  {}

  /** In general the result belongs to the fields left behind exactly when no carry reaches the year, because the years
      are counted first: the month is one of the twelve, and the days, with those carried in, fit the rest of the year
      as the month loop counts it. */
  lemma MadeAgreesIffYearKept(f: Fields)
    requires f.year >= 70 && (0 <= f.mon < 12 || f.mon > 12)
    ensures var (g, t) := Made(f);
            g.year >= 70 && 0 <= g.mon < 12
            && (t == Seconds(g) <==> f.mon < 12 && Carried(f).mday <= DayRoom(f.mon, Leap(f.year + 1900)))
  {
    hide DayFormula, DaysBefore, Leap, Made, Seconds, MonthsCarried, Carried, DayRoom;
    var g := Made(f).0;
    MadeDifference(f);
    CarriedYear(f);
    YearKeptIff(Carried(f));
    CarriedKeepsTime(f);
    DayFormulaCountsDays(g.year - 70);
    if f.year < g.year { FormulaGrows(f.year - 70, g.year - 70); }
  }

  /** The result is off by the days between the year that was counted and the year it belongs to. */
  lemma MadeDifference(f: Fields)
    requires f.year >= 70 && (0 <= f.mon < 12 || f.mon > 12)
    ensures var (g, t) := Made(f);
            && g.year >= 70 && 0 <= g.mon < 12 && Carried(f).mon >= 0 && Carried(f).mon < 12
            && g.year == MonthsCarried(Carried(f)).year
            && t == Seconds(g) + SPD * (DayFormula(f.year - 70) - DaysBefore(g.year + 1900))
  {
    hide DayFormula, DaysBefore, Leap, Rem, Quot, MonthsCarried, Carried, DayOfYear;
    QuotRem(f.mon, 12);
    CarriedYear(f);
  }

  lemma CarriedYear(f: Fields)
    requires (0 <= f.mon < 12 || f.mon > 12)
    ensures Carried(f).year >= f.year && 0 <= Carried(f).mon < 12 && (f.mon > 12 ==> Carried(f).year > f.year)
  {
    hide Quot, Rem;
    QuotRem(f.mon, 12);
  }

  /** Dates before 1970 whose days fit the year have no seconds: the result is -1. */
  lemma BeforeEpoch(f: Fields)
    requires f.year < 70 && 0 <= f.mon < 12 && Carried(f).mday <= DayRoom(f.mon, Leap(f.year + 1900))
    ensures Made(f).1 == -1
  {
    hide DayFormula, Leap, Rem, Quot, MonthsCarried, DayRoom, DayOfYear;
    QuotRem(f.mon, 12);
    YearKeptIff(Carried(f));
  }

  /** January of the second year, given as month 13 of 1970, comes out a year early. */
  lemma ThirteenthMonth(f: Fields)
    requires f.mon == 13 && f.year == 70 && f.mday == 1 && f.hour == f.min == f.sec == 0
    ensures Made(f).0.year == 71 && Made(f).0.mon == 1 && Made(f).1 == 31 * SPD
  {
    hide MonthsCarried, DayFormula, DaysBefore, Leap;
    assert Quot(13, 12) == 1 && Rem(13, 12) == 1;
    StaysInMonth(Carried(f));
    DayFormulaCountsDays(0);
    FirstDay();
  }

  lemma FirstDay()
    ensures DaysBefore(1970) == 0
  {}

  lemma StaysInMonth(f: Fields)
    requires 0 <= f.mon < 12 && f.mday <= SPM[f.mon + 1]
    ensures MonthsCarried(f) == f
  {}

  // ---- The code: a record filled in place ----

  class Tm {
    var sec: int
    var min: int
    var hour: int
    var mday: int
    var mon: int
    var year: int
    var wday: int
    var yday: int

    constructor ()
    {
      sec, min, hour, mday, mon, year, wday, yday := 0, 0, 0, 1, 0, 70, 4, 0;
    }

    function View(): Fields
      reads this
    {
      Fields(sec, min, hour, mday, mon, year, wday, yday)
    }

    /** Fills the record by counting years up and months down. */
    method GmtimeR(t: int)
      modifies this
      ensures View() == BrokenDown(t)
    {
      hide Quot, Rem, Leap, YearFrom, MonthFrom;
      var work := Rem(t, SPD);
      sec := Rem(work, 60);
      work := Quot(work, 60);
      min := Rem(work, 60);
      hour := Quot(work, 60);
      work := Quot(t, SPD);
      wday := Rem(4 + work, 7);
      var i;
      i, work := CountYears(work);
      year := i - 1900;
      yday := work;
      mday := 1;
      if Leap(i) && work > 58 {
        if work == 59 {
          mday := 2;
        }
        work := work - 1;
      }
      mon := FindMonth(work);
      mday := mday + work - SPM[mon];
    }

    /** The carries before the month loop. */
    method Carry()
      modifies this
      ensures View() == Carried(old(View()))
    {
      hide Quot, Rem;
      if sec > 60 {
        min := min + Quot(sec, 60);
        sec := Rem(sec, 60);
      }
      if min > 60 {
        hour := hour + Quot(min, 60);
        min := Rem(min, 60);
      }
      if hour > 24 {
        mday := mday + Quot(hour, 24);
        hour := Rem(hour, 24);
      }
      if mon > 12 {
        year := year + Quot(mon, 12);
        mon := Rem(mon, 12);
      }
    }

    method CarryMonths()
      requires 0 <= mon < 12
      modifies this
      ensures View() == MonthsCarried(old(View()))
    {
      hide Leap, MonthsCarried;
      while mday > SPM[1 + mon]
        invariant 0 <= mon < 12 && MonthsCarried(View()) == MonthsCarried(old(View()))
        decreases mday, 12 - mon
      {
        MonthsCarriedStep(View());
        if mon == 1 && Leap(year + 1900) {
          mday := mday - 1;
        }
        mday := mday - SPM[mon];
        mon := mon + 1;
        if mon > 11 {
          mon := 0;
          year := year + 1;
        }
      }
      StaysInMonth(View());
    }

    /** `mktime`. The month table is only defined for months 0 to 11 after the carry. */
    method Mktime() returns (t: int)
      requires 0 <= mon < 12 || mon > 12
      modifies this
      ensures (View(), t) == Made(old(View()))
    {
      hide Quot, Rem, Leap, Carried, MonthsCarried, CenturyDays;
      var years := year - 70;
      CarriedMonth(View());
      Carry();
      CarryMonths();
      if year < 70 {
        return -1;
      }
      var day := years * 365 + Quot(years + 1, 4);
      day := SkipCenturies(years, day);
      yday := SPM[mon] + mday - 1 + if Leap(year + 1900) && mon > 1 then 1 else 0;
      day := day + yday;
      wday := Rem(day + 4, 7);
      t := ((day * 24 + hour) * 60 + min) * 60 + sec;
    }
  }

  method CountYears(day: int) returns (i: int, work: int)
    ensures (i, work) == YearFrom(1970, day)
  {
    hide Leap;
    i, work := 1970, day;
    while work >= YearLength(i)
      invariant YearFrom(i, work) == YearFrom(1970, day)
      decreases work
    {
      LongYear(i);
      i, work := i + 1, work - YearLength(i);
    }
  }

  method FindMonth(work: int) returns (i: nat)
    ensures i == MonthFrom(11, work) < 12
  {
    i := 11;
    while i != 0 && SPM[i] > work
      invariant i < 12 && MonthFrom(i, work) == MonthFrom(11, work)
    {
      i := i - 1;
    }
  }

  lemma LongYear(i: int)
    ensures YearLength(i) >= 365
  {}

  lemma CarriedMonth(f: Fields)
    requires 0 <= f.mon < 12 || f.mon > 12
    ensures 0 <= Carried(f).mon < 12
  {
    hide Quot, Rem;
    QuotRem(f.mon, 12);
  }

  /** The century correction, with shifts and masks as divisions by four. */
  method SkipCenturies(years0: int, day0: int) returns (day: int)
    ensures day == day0 - CenturyDays(years0)
  {
    var years := years0;
    day := day0;
    if years >= 131 {
      years := (years - 131) / 100;
      day := day - (years / 4 * 3 + 1);
      years := years % 4;
      if years == 3 {
        years := years - 1;
      }
      day := day - years;
    }
  }
}