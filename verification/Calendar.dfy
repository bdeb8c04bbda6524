/** Dates and times as day numbers, over exact reals. */
module Calendar {
  import opened Powers

  /** Division and remainder that round toward zero. */
  function Quot(a: int, b: int): int
    requires b > 0
  {
    if a >= 0 then a / b else -(-a / b)
  }

  function Rem(a: int, b: int): int
    requires b > 0
  {
    a - b * Quot(a, b)
  }

  datatype Tm = Tm(year: int, mon: int, mday: int, hour: int, min: int, sec: int, wday: int, yday: int)

  predicate IsLeapYear(year: int)
  {
    (Rem(year, 4) == 0 && Rem(year, 100) != 0) || Rem(year, 400) == 0
  }

  const MONTH_DAYS: seq<int> := [31, 28, 31, 30, 31, 30, 31, 31, 30, 31, 30, 31]

  function DaysInMonth(year: int, mon: int): int
  {
    if mon == 1 then (if IsLeapYear(year) then 29 else 28)
    else if 0 <= mon < 12 then MONTH_DAYS[mon]
    else 30
  }

  /** The Julian day number of a day of the (proleptic) Gregorian calendar. */
  function Jdn(year: int, month: int, day: int): int
  {
    var a := Quot(14 - month, 12);
    var y := year + 4800 - a;
    var m := month + 12 * a - 3;
    day + Quot(153 * m + 2, 5) + 365 * y + Quot(y, 4) - Quot(y, 100) + Quot(y, 400) - 32045
  }

  const EPOCH := 2415019

  function TmToDays(tm: Tm): real
  {
    (Jdn(tm.year + 1900, tm.mon + 1, tm.mday) - EPOCH) as real
    + (tm.hour as real + (tm.min as real + tm.sec as real / 60.0) / 60.0) / 24.0
  }

  /** Day 0 is 30 December 1899 and day 25569 is 1 January 1970. */
  lemma DayZero()
    ensures TmToDays(Tm(-1, 11, 30, 0, 0, 0, 0, 0)) == 0.0
    ensures TmToDays(Tm(70, 0, 1, 0, 0, 0, 0, 0)) == 25569.0
  {
  }

  /** They are a Saturday and a Thursday. */
  lemma DayZeroOfWeek()
    ensures WeekDay(0) == 6 && WeekDay(25569) == 4
  {
  }

  // ---------------------------------------------------------------- backwards

  function Whole(days: real): int
  {
    if days >= 0.0 then days.Floor else -((-days).Floor)
  }

  /** The whole days and the fraction of a day that is left, never negative. */
  function Split(days: real): (int, real)
  {
    var frac := days - Whole(days) as real;
    if frac < 0.0 then (Whole(days) - 1, frac + 1.0) else (Whole(days), frac)
  }

  datatype Date = Date(year: int, mon: int, mday: int)

  /** Year, month from 0 and day of a day number: centuries first, then years, then months. */
  function DateOf(jdn: int): Date
  {
    var l0 := jdn + 68569;
    var n := Quot(4 * l0, 146097);
    var l1 := l0 - Quot(146097 * n + 3, 4);
    var i := Quot(4000 * (l1 + 1), 1461001);
    var l2 := l1 - Quot(1461 * i, 4) + 31;
    var j := Quot(80 * l2, 2447);
    var l3 := Quot(j, 11);
    Date(100 * (n - 49) + i + l3, j + 2 - 12 * l3 - 1, l2 - Quot(2447 * j, 80))
  }

  /** The days of the year before month `mon`. */
  function DaysBefore(year: int, mon: int): int
    decreases mon
  {
    if mon <= 0 then 0 else DaysBefore(year, mon - 1) + DaysInMonth(year, mon - 1)
  }

  function WeekDay(days: int): int
  {
    Rem(6 + Rem(days, 7) + 7, 7)
  }

  method DaysToTm(days: real) returns (tm: Tm)
    ensures var (whole, frac) := Split(days);
            var date, secs := DateOf(whole + EPOCH), (frac * 86400.0 + 0.5).Floor;
            && tm.year == date.year - 1900 && tm.mon == date.mon && tm.mday == date.mday
            && tm.hour == secs / 3600 && tm.min == secs % 3600 / 60 && tm.sec == secs % 60
            && tm.wday == WeekDay(whole)
            && tm.yday == DaysBefore(date.year, tm.mon) + tm.mday - 1
  {
    hide Quot, DaysInMonth, Whole;
    var whole := Whole(days);
    var frac := days - whole as real;
    if frac < 0.0 {
      frac := frac + 1.0;
      whole := whole - 1;
    }
    var jdn := whole + EPOCH;
    var l := jdn + 68569;
    var n := Quot(4 * l, 146097);
    l := l - Quot(146097 * n + 3, 4);
    var i := Quot(4000 * (l + 1), 1461001);
    l := l - Quot(1461 * i, 4) + 31;
    var j := Quot(80 * l, 2447);
    var mday := l - Quot(2447 * j, 80);
    l := Quot(j, 11);
    var mon := j + 2 - 12 * l - 1;
    var year := 100 * (n - 49) + i + l - 1900;
    var yday, m := 0, 0;
    while m < mon
      invariant 0 <= m && (mon < 0 ==> m == 0) && (0 <= mon ==> m <= mon)
      invariant yday == DaysBefore(year + 1900, m)
    {
      yday := yday + DaysInMonth(year + 1900, m);
      m := m + 1;
    }
    yday := yday + mday - 1;
    var secs := (frac * 86400.0 + 0.5).Floor;
    tm := Tm(year, mon, mday, secs / 3600, secs % 3600 / 60, secs % 60, WeekDay(whole), yday);
  }

  // ---------------------------------------------------------------- the proofs

  /** A day of the calendar, counted in years from March. */
  ghost predicate ValidDate(year: int, mon: int, mday: int)
  {
    year >= -4799 && 0 <= mon < 12 && 1 <= mday <= DaysInMonth(year, mon)
  }

  lemma QuotPos(a: int, b: int)
    requires a >= 0 && b > 0
    ensures Quot(a, b) == a / b
  {
  }

  /** The day of the year that begins in March. */
  function MarchDay(m: int, day: int): int
  {
    day + (153 * m + 2) / 5 - 1
  }

  /** With years that begin in March, `100 * c + t` being the year: the days of whole
      centuries, years and months add up. */
  lemma JdnParts(year: int, mon: int, mday: int, c: int, t: int, m: int)
    requires year >= -4799 && 0 <= mon < 12 && mday >= 1
    requires m == (mon + 10) % 12 && 100 * c + t == year + 4800 - (if mon < 2 then 1 else 0) && 0 <= t < 100
    ensures c >= 0
    ensures Jdn(year, mon + 1, mday) + 68569 == 36524 * (c + 1) + c / 4 + 365 * t + t / 4 + MarchDay(m, mday) + 1
  {
    var a := if mon < 2 then 1 else 0;
    assert Quot(14 - (mon + 1), 12) == a;
    var y := year + 4800 - a;
    assert mon + 1 + 12 * a - 3 == m;
    QuotPos(153 * m + 2, 5);
    QuotPos(y, 4);
    QuotPos(y, 100);
    QuotPos(y, 400);
    hide Quot;
    CenturyParts(y, c, t);
  }

  lemma CenturyParts(y: int, c: int, t: int)
    requires y == 100 * c + t && 0 <= t < 100 && y >= 0
    ensures c >= 0 && y / 4 == 25 * c + t / 4 && y / 100 == c && y / 400 == c / 4
  {
  }

  /** A March-based year that ends in a 29 February. */
  predicate LongYear(c: int, t: int)
  {
    if t == 99 then c % 4 == 3 else t % 4 == 3
  }

  lemma LastDay(year: int, mon: int, mday: int, c: int, t: int, m: int)
    requires ValidDate(year, mon, mday)
    requires m == (mon + 10) % 12 && 100 * c + t == year + 4800 - (if mon < 2 then 1 else 0) && 0 <= t < 100
    ensures 0 <= MarchDay(m, mday) <= if LongYear(c, t) then 365 else 364
    ensures 1 <= mday <= 31
  {
    if mon == 1 { LeapIsLong(year, c, t); }
  }

  lemma LeapIsLong(year: int, c: int, t: int)
    requires 100 * c + t == year + 4799 && 0 <= t < 100
    ensures IsLeapYear(year) <==> LongYear(c, t)
  {
    LeapYearIs(year);
    hide IsLeapYear;
    FourthYear(year, c, t + 1);
    HundredthYear(year, c, t + 1);
  }

  lemma FourthYear(year: int, c: int, k: int)
    requires year == 100 * c + k - 4800
    ensures year % 4 == k % 4
  {
  }

  lemma HundredthYear(year: int, c: int, k: int)
    requires year == 100 * c + k - 4800 && 1 <= k <= 100
    ensures year % 100 == 0 <==> k == 100
    ensures year % 400 == 0 <==> k == 100 && c % 4 == 3
  {
  }

  lemma LeapYearIs(year: int)
    ensures IsLeapYear(year) <==> (year % 4 == 0 && year % 100 != 0) || year % 400 == 0
  {
    By4(year);
    By100(year);
    By400(year);
    hide Rem;
  }

  lemma By4(year: int)
    ensures Rem(year, 4) == 0 <==> year % 4 == 0
  {
  }

  lemma By100(year: int)
    ensures Rem(year, 100) == 0 <==> year % 100 == 0
  {
  }

  lemma By400(year: int)
    ensures Rem(year, 400) == 0 <==> year % 400 == 0
  {
  }

  /** The three divisions find century, year and month again. */
  lemma CenturyFound(c: int, t: int, doy: int)
    requires c >= 0 && 0 <= t < 100 && 0 <= doy <= if LongYear(c, t) then 365 else 364
    ensures var l0 := 36524 * (c + 1) + c / 4 + 365 * t + t / 4 + doy + 1;
            4 * l0 / 146097 == c + 1 && l0 - (146097 * (c + 1) + 3) / 4 == 365 * t + t / 4 + doy
  {
  }

  lemma YearFound(c: int, t: int, doy: int)
    requires 0 <= t < 100 && 0 <= doy <= if LongYear(c, t) then 365 else 364
    ensures var l1 := 365 * t + t / 4 + doy;
            4000 * (l1 + 1) / 1461001 == t && l1 - 1461 * t / 4 + 31 == doy + 31
  {
  }

  lemma MonthFound(m: int, day: int)
    requires 0 <= m < 12 && 1 <= day <= (if m == 11 then 29 else MONTH_DAYS[(m + 2) % 12])
    ensures var l2 := MarchDay(m, day) + 31;
            80 * l2 / 2447 == m + 1 && l2 - 2447 * (m + 1) / 80 == day && (m + 1) / 11 == (if m >= 10 then 1 else 0)
  {
  }

  lemma MonthFits(year: int, mon: int, mday: int)
    requires ValidDate(year, mon, mday)
    ensures var m := (mon + 10) % 12;
            && 0 <= m < 12 && (m >= 10 <==> mon < 2) && mon == m + 2 - 12 * (if mon < 2 then 1 else 0)
            && 1 <= mday <= (if m == 11 then 29 else MONTH_DAYS[(m + 2) % 12])
  {
    hide IsLeapYear;
  }

  lemma CenturyOf(y: int) returns (c: int, t: int)
    ensures y == 100 * c + t && 0 <= t < 100
  {
    c, t := y / 100, y % 100;
  }

  /** A date comes back from its day number. */
  lemma DateOfJdn(year: int, mon: int, mday: int)
    requires ValidDate(year, mon, mday)
    ensures DateOf(Jdn(year, mon + 1, mday)) == Date(year, mon, mday)
  {
    var a := if mon < 2 then 1 else 0;
    var m := (mon + 10) % 12;
    MonthFits(year, mon, mday);
    var c, t := CenturyOf(year + 4800 - a);
    JdnParts(year, mon, mday, c, t, m);
    LastDay(year, mon, mday, c, t, m);
    hide ValidDate, LongYear, MarchDay, Jdn, DateOf;
    DateOfParts(Jdn(year, mon + 1, mday), c, t, m, mday);
  }

  lemma DateOfParts(jdn: int, c: int, t: int, m: int, mday: int)
    requires c >= 0 && 0 <= t < 100 && 0 <= m < 12 && 1 <= mday <= (if m == 11 then 29 else MONTH_DAYS[(m + 2) % 12])
    requires 0 <= MarchDay(m, mday) <= if LongYear(c, t) then 365 else 364
    requires jdn + 68569 == 36524 * (c + 1) + c / 4 + 365 * t + t / 4 + MarchDay(m, mday) + 1
    ensures var a := if m >= 10 then 1 else 0;
            DateOf(jdn) == Date(100 * c + t + a - 4800, m + 2 - 12 * a, mday)
  {
    var doy := MarchDay(m, mday);
    CenturyFound(c, t, doy);
    YearFound(c, t, doy);
    MonthFound(m, mday);
    hide MarchDay, LongYear, DateOf;
    DateFound(jdn, c, t, doy, m, mday);
  }

  lemma DateFound(jdn: int, c: int, t: int, doy: int, m: int, mday: int)
    requires var l0 := jdn + 68569;
             l0 > 0 && 4 * l0 / 146097 == c + 1 && l0 - (146097 * (c + 1) + 3) / 4 == 365 * t + t / 4 + doy
    requires var l1 := 365 * t + t / 4 + doy; 4000 * (l1 + 1) / 1461001 == t && l1 - 1461 * t / 4 + 31 == doy + 31
    requires var l2 := doy + 31; 80 * l2 / 2447 == m + 1 && l2 - 2447 * (m + 1) / 80 == mday
    requires (m + 1) / 11 == (if m >= 10 then 1 else 0)
    requires c >= 0 && t >= 0 && doy >= 0 && 0 <= m < 12
    ensures var a := if m >= 10 then 1 else 0;
            DateOf(jdn) == Date(100 * c + t + a - 4800, m + 2 - 12 * a, mday)
  {
    hide Quot;
    var l0, l1, l2 := jdn + 68569, 365 * t + t / 4 + doy, doy + 31;
    QuotPos(4 * l0, 146097);
    QuotPos(146097 * (c + 1) + 3, 4);
    QuotPos(4000 * (l1 + 1), 1461001);
    QuotPos(1461 * t, 4);
    QuotPos(80 * l2, 2447);
    QuotPos(2447 * (m + 1), 80);
    QuotPos(m + 1, 11);
  }

  // ----------------------------------------------------- consecutive days

  function NextDay(d: Date): Date
  {
    if d.mday < DaysInMonth(d.year, d.mon) then d.(mday := d.mday + 1)
    else if d.mon < 11 then Date(d.year, d.mon + 1, 1)
    else Date(d.year + 1, 0, 1)
  }

  function JdnOf(d: Date): int
  {
    Jdn(d.year, d.mon + 1, d.mday)
  }

  /** The days of `y` March-based years. */
  function YearsDays(y: int): int
  {
    365 * y + y / 4 - y / 100 + y / 400
  }

  lemma JdnFlat(year: int, mon: int, mday: int)
    requires year >= -4799 && 0 <= mon < 12 && mday >= 1
    ensures Jdn(year, mon + 1, mday)
         == MarchDay((mon + 10) % 12, mday) + YearsDays(year + 4800 - if mon < 2 then 1 else 0) - 32044
  {
    var a := if mon < 2 then 1 else 0;
    var y, m := year + 4800 - a, mon + 12 * a - 2;
    assert Quot(14 - (mon + 1), 12) == a && m == (mon + 10) % 12;
    QuotPos(153 * m + 2, 5);
    QuotPos(y, 4);
    QuotPos(y, 100);
    QuotPos(y, 400);
    hide Quot;
  }

  lemma YearLength(year: int)
    ensures YearsDays(year + 4800) - YearsDays(year + 4799) == if IsLeapYear(year) then 366 else 365
  {
    LeapYearIs(year);
    hide IsLeapYear;
    MultipleStep4(year);
    MultipleStep100(year);
    MultipleStep400(year);
    LeapCenturies(year);
  }

  lemma MultipleStep4(year: int)
    ensures (year + 4800) / 4 - (year + 4799) / 4 == if year % 4 == 0 then 1 else 0
  {
  }

  lemma MultipleStep100(year: int)
    ensures (year + 4800) / 100 - (year + 4799) / 100 == if year % 100 == 0 then 1 else 0
  {
  }

  lemma MultipleStep400(year: int)
    ensures (year + 4800) / 400 - (year + 4799) / 400 == if year % 400 == 0 then 1 else 0
  {
  }

  lemma LeapCenturies(year: int)
    ensures year % 400 == 0 ==> year % 100 == 0
    ensures year % 100 == 0 ==> year % 4 == 0
  {
    if year % 400 == 0 { SmallMultiple(100, 4 * (year / 400) - year / 100); }
    if year % 100 == 0 { SmallMultiple(4, 25 * (year / 100) - year / 4); }
  }

  lemma MonthLength(year: int, mon: int)
    requires 0 <= mon < 12 && mon != 1
    ensures var m := (mon + 10) % 12; MarchDay(m, DaysInMonth(year, mon)) + 1 == MarchDay(m + 1, 1)
  {
  }

  lemma NextIsOneMore(d: Date)
    requires ValidDate(d.year, d.mon, d.mday)
    ensures var e := NextDay(d); ValidDate(e.year, e.mon, e.mday) && JdnOf(e) == JdnOf(d) + 1
  {
    hide Jdn, IsLeapYear;
    if d.mday < DaysInMonth(d.year, d.mon) {
      SameMonth(d.year, d.mon, d.mday);
    } else if d.mon == 1 {
      FirstOfMarch(d.year);
    } else if d.mon < 11 {
      FirstOfMonth(d.year, d.mon);
    } else {
      FirstOfYear(d.year);
    }
  }

  lemma SameMonth(year: int, mon: int, mday: int)
    requires year >= -4799 && 0 <= mon < 12 && mday >= 1
    ensures Jdn(year, mon + 1, mday + 1) == Jdn(year, mon + 1, mday) + 1
  {
    JdnFlat(year, mon, mday);
    JdnFlat(year, mon, mday + 1);
    hide Jdn, YearsDays;
  }

  lemma MarchDays(day: int)
    ensures MarchDay(11, day) == day + 336 && MarchDay(0, 1) == 0
  {
  }

  lemma FirstOfMarch(year: int)
    requires year >= -4799
    ensures Jdn(year, 3, 1) == Jdn(year, 2, DaysInMonth(year, 1)) + 1
  {
    hide Jdn, YearsDays, IsLeapYear, MarchDay;
    JdnFlat(year, 1, DaysInMonth(year, 1));
    JdnFlat(year, 2, 1);
    YearLength(year);
    MarchDays(DaysInMonth(year, 1));
  }

  lemma FirstOfMonth(year: int, mon: int)
    requires year >= -4799 && 0 <= mon < 11 && mon != 1
    ensures Jdn(year, mon + 2, 1) == Jdn(year, mon + 1, DaysInMonth(year, mon)) + 1
  {
    JdnFlat(year, mon, DaysInMonth(year, mon));
    JdnFlat(year, mon + 1, 1);
    MonthLength(year, mon);
    MarchMonths(mon);
    hide Jdn, YearsDays, MarchDay, DaysInMonth;
  }

  lemma FirstOfYear(year: int)
    requires year >= -4799
    ensures Jdn(year + 1, 1, 1) == Jdn(year, 12, 31) + 1
  {
    JdnFlat(year, 11, 31);
    JdnFlat(year + 1, 0, 1);
    hide Jdn, YearsDays;
  }

  lemma MarchMonths(mon: int)
    requires 0 <= mon < 11 && mon != 1
    ensures (mon + 1 + 10) % 12 == (mon + 10) % 12 + 1 && (mon < 2 <==> mon + 1 < 2)
  {
  }

  lemma {:induction false} DaysBeforeIs(year: int, mon: int)
    requires 0 <= mon < 12
    ensures DaysBefore(year, mon) ==
              [0, 31, 59, 90, 120, 151, 181, 212, 243, 273, 304, 334][mon] + if mon > 1 && IsLeapYear(year) then 1 else 0
  {
    hide IsLeapYear;
    if mon > 0 { DaysBeforeIs(year, mon - 1); }
  }

  /** The day of the year is the distance from 1 January. */
  lemma YearDay(year: int, mon: int, mday: int)
    requires ValidDate(year, mon, mday)
    ensures DaysBefore(year, mon) + mday - 1 == Jdn(year, mon + 1, mday) - Jdn(year, 1, 1)
  {
    JdnFlat(year, mon, mday);
    JdnFlat(year, 0, 1);
    DaysBeforeIs(year, mon);
    YearLength(year);
    MarchDayBefore(mon, mday);
    hide Jdn, IsLeapYear, DaysBefore, YearsDays, MarchDay;
  }

  lemma MarchDayBefore(mon: int, mday: int)
    requires 0 <= mon < 12
    ensures MarchDay((mon + 10) % 12, mday) - MarchDay(10, 1) + (if mon < 2 then 0 else 365)
         == [0, 31, 59, 90, 120, 151, 181, 212, 243, 273, 304, 334][mon] + mday - 1
  {
  }

  /** The weekday that the date parser checks names against. */
  function ParserWeekDay(year: int, month: int, day: int): int
  {
    Rem(Jdn(year, month, day) + 1, 7)
  }

  lemma WeekDaysAgree(jdn: int)
    ensures WeekDay(jdn - EPOCH) == (jdn + 1) % 7
    ensures jdn >= -1 ==> Rem(jdn + 1, 7) == (jdn + 1) % 7
  {
  }

  lemma ParserAgrees(year: int, month: int, day: int)
    requires Jdn(year, month, day) >= -1
    ensures WeekDay(Jdn(year, month, day) - EPOCH) == ParserWeekDay(year, month, day)
  {
    WeekDaysAgree(Jdn(year, month, day));
    hide Jdn;
  }

  lemma JdnPositive(year: int, mon: int, mday: int)
    requires ValidDate(year, mon, mday) && year >= 1
    ensures Jdn(year, mon + 1, mday) > 0
  {
    JdnFlat(year, mon, mday);
    hide Jdn;
  }

  // ------------------------------------------------------------- whole times

  ghost predicate ValidTm(tm: Tm)
  {
    && ValidDate(tm.year + 1900, tm.mon, tm.mday)
    && 0 <= tm.hour < 24 && 0 <= tm.min < 60 && 0 <= tm.sec < 60
  }

  function SecondsOf(tm: Tm): int
  {
    tm.hour * 3600 + tm.min * 60 + tm.sec
  }

  lemma SplitSum(n: int, f: real)
    requires 0.0 <= f < 1.0
    ensures Split(n as real + f) == (n, f)
  {
    var d := n as real + f;
    if d >= 0.0 {
      assert d.Floor == n;
    } else if f == 0.0 {
      assert (-d).Floor == -n;
    } else {
      assert (-d).Floor == -n - 1;
    }
  }

  /** Any number of seconds: the whole days among them move the day, down for a negative number. */
  lemma TmToDaysSplit(tm: Tm)
    ensures var (whole, frac) := Split(TmToDays(tm));
            && whole == Jdn(tm.year + 1900, tm.mon + 1, tm.mday) - EPOCH + SecondsOf(tm) / 86400
            && (frac * 86400.0 + 0.5).Floor == SecondsOf(tm) % 86400
  {
    hide Jdn, Split;
    var f := (tm.hour as real + (tm.min as real + tm.sec as real / 60.0) / 60.0) / 24.0;
    assert f * 86400.0 == SecondsOf(tm) as real;
    DayFraction(SecondsOf(tm), f);
    var g := (SecondsOf(tm) % 86400) as real / 86400.0;
    assert g * 86400.0 == (SecondsOf(tm) % 86400) as real;
    SplitSum(Jdn(tm.year + 1900, tm.mon + 1, tm.mday) - EPOCH + SecondsOf(tm) / 86400, g);
  }

  lemma DayFraction(secs: int, f: real)
    requires f * 86400.0 == secs as real
    ensures f == (secs / 86400) as real + (secs % 86400) as real / 86400.0
    ensures 0.0 <= (secs % 86400) as real / 86400.0 < 1.0
  {
    assert secs == secs / 86400 * 86400 + secs % 86400;
  }

  /** Every date and second comes back from its day number, with the weekday that the
      parser computes and the distance from 1 January. */
  method RoundTrip(tm: Tm) returns (r: Tm)
    requires ValidTm(tm)
    ensures r.(wday := 0, yday := 0) == tm.(wday := 0, yday := 0)
    ensures r.yday == Jdn(tm.year + 1900, tm.mon + 1, tm.mday) - Jdn(tm.year + 1900, 1, 1)
    ensures tm.year + 1900 >= 1 ==> r.wday == ParserWeekDay(tm.year + 1900, tm.mon + 1, tm.mday)
  {
    hide Split, TmToDays, DateOf, WeekDay, Jdn, DaysBefore, ParserWeekDay, ValidDate, SecondsOf;
    TmToDaysSplit(tm);
    ClockOf(tm);
    r := DaysToTm(TmToDays(tm));
    DateOfJdn(tm.year + 1900, tm.mon, tm.mday);
    YearDay(tm.year + 1900, tm.mon, tm.mday);
    if tm.year + 1900 >= 1 {
      JdnPositive(tm.year + 1900, tm.mon, tm.mday);
      ParserAgrees(tm.year + 1900, tm.mon + 1, tm.mday);
    }
  }

  lemma ClockOf(tm: Tm)
    requires 0 <= tm.hour < 24 && 0 <= tm.min < 60 && 0 <= tm.sec < 60
    ensures var t := SecondsOf(tm);
            t % 86400 == t && t / 86400 == 0 && t / 3600 == tm.hour && t % 3600 / 60 == tm.min && t % 60 == tm.sec
  {
    ClockFields(tm.hour, tm.min, tm.sec);
  }

  lemma ClockFields(h: int, m: int, s: int)
    requires 0 <= h < 24 && 0 <= m < 60 && 0 <= s < 60
    ensures var t := h * 3600 + m * 60 + s; t % 86400 == t && t / 86400 == 0 && t / 3600 == h && t % 3600 / 60 == m && t % 60 == s
  {
    DivMod(3600, h, m * 60 + s, h * 3600 + m * 60 + s);
    DivMod(60, m, s, m * 60 + s);
    DivMod(60, 60 * h + m, s, h * 3600 + m * 60 + s);
    DivMod(86400, 0, h * 3600 + m * 60 + s, h * 3600 + m * 60 + s);
  }

  lemma SplitRange(days: real)
    ensures 0.0 <= Split(days).1 < 1.0
  {
  }

  /** The last half second of a day is rounded up to an hour 24 of the same day. */
  method HourInRange(days: real) returns (tm: Tm)
    ensures 0 <= tm.min < 60 && 0 <= tm.sec < 60
    ensures 0 <= tm.hour < 24 <==> Split(days).1 < 86399.5 / 86400.0
    ensures tm.hour >= 24 ==> tm.hour == 24 && tm.min == 0 && tm.sec == 0
  {
    tm := DaysToTm(days);
    SplitRange(days);
    hide Split, DateOf;
    var x := Split(days).1 * 86400.0 + 0.5;
    assert x < 86400.5 && x.Floor <= 86400;
  }

  // ------------------------------------------------------- any fields at all

  /** 1 January -4799, from which on the divisions round as the calendar wants. */
  const FIRST_DAY := -31738

  /** Every day number from then on belongs to the date that the divisions find. */
  lemma {:induction false} DayOfDate(jdn: int)
    requires jdn >= FIRST_DAY
    ensures var d := DateOf(jdn); ValidDate(d.year, d.mon, d.mday) && JdnOf(d) == jdn
    decreases jdn - FIRST_DAY
  {
    hide DateOf, NextDay;
    if jdn == FIRST_DAY {
      DateOfJdn(-4799, 0, 1);
    } else {
      hide Jdn, ValidDate;
      DayOfDate(jdn - 1);
      NextIsOneMore(DateOf(jdn - 1));
      var e := NextDay(DateOf(jdn - 1));
      DateOfJdn(e.year, e.mon, e.mday);
    }
  }

  function DateIn(tm: Tm): Date
  {
    Date(tm.year + 1900, tm.mon, tm.mday)
  }

  /** The day that arbitrary fields mean: whole months carry into the year, a day past the
      month's end is its last, a day below 1 counts back, and the clock carries whole days. */
  function MeantDay(tm: Tm): int
  {
    var year, mon := tm.year + 1900 + tm.mon / 12, tm.mon % 12;
    var last := DaysInMonth(year, mon);
    Jdn(year, mon + 1, 1) + (if tm.mday > last then last else tm.mday) - 1 + SecondsOf(tm) / 86400
  }

  /** What the fields mean: a day more is a day later as long as the month has it. */
  lemma MeantDate(tm: Tm)
    ensures var last := DaysInMonth(tm.year + 1900 + tm.mon / 12, tm.mon % 12);
            MeantDay(tm.(mday := tm.mday + 1)) == MeantDay(tm) + if tm.mday < last then 1 else 0
    ensures 0 <= tm.mon < 12 && tm.mday <= DaysInMonth(tm.year + 1900, tm.mon) && 0 <= SecondsOf(tm) < 86400 ==>
              MeantDay(tm) == Jdn(tm.year + 1900, tm.mon + 1, tm.mday)
  {
    hide DaysInMonth, Jdn;
    if 0 <= tm.mon < 12 {
      MonthsCarried(tm.year, tm.mon, tm.year, tm.mon);
      JdnShift(tm.year + 1900, tm.mon + 1, tm.mday);
    }
  }

  /** A year is twelve months. */
  lemma MeantMonths(tm: Tm)
    ensures MeantDay(tm.(mon := tm.mon - 12, year := tm.year + 1)) == MeantDay(tm)
  {
    hide DaysInMonth, Jdn;
    TwelveBack(tm.mon);
  }

  lemma TwelveBack(mon: int)
    ensures (mon - 12) / 12 == mon / 12 - 1 && (mon - 12) % 12 == mon % 12
  {
  }

  /** A day is twenty-four hours of sixty minutes of sixty seconds. */
  lemma MeantClock(tm: Tm)
    ensures MeantDay(tm.(hour := tm.hour + 24)) == MeantDay(tm) + 1
    ensures MeantDay(tm.(hour := tm.hour + 1)) == MeantDay(tm.(min := tm.min + 60)) == MeantDay(tm.(sec := tm.sec + 3600))
  {
    hide DaysInMonth, Jdn;
    DayMore(SecondsOf(tm));
  }

  lemma DayMore(secs: int)
    ensures (secs + 86400) / 86400 == secs / 86400 + 1
  {
  }

  lemma ClockBack(secs: int)
    ensures var s := secs % 86400;
            && 0 <= s / 3600 < 24 && 0 <= s % 3600 / 60 < 60 && 0 <= s % 60 < 60
            && s / 3600 * 3600 + s % 3600 / 60 * 60 + s % 60 == s
  {
  }

  /** Whatever the fields hold, the result is the day and the second of the day they mean. */
  method NormalizeTm(tm: Tm) returns (r: Tm)
    ensures SecondsOf(r) == SecondsOf(tm) % 86400 && 0 <= r.hour < 24 && 0 <= r.min < 60 && 0 <= r.sec < 60
    ensures DateIn(r) == DateOf(MeantDay(tm)) && r.wday == (MeantDay(tm) + 1) % 7
    ensures MeantDay(tm) >= FIRST_DAY ==>
              && ValidTm(r) && JdnOf(DateIn(r)) == MeantDay(tm)
              && r.yday == MeantDay(tm) - Jdn(r.year + 1900, 1, 1)
  {
    hide Jdn, IsLeapYear, Split, TmToDays, DateOf, WeekDay, DaysBefore;
    var t := tm;
    while t.mon < 0
      invariant t == tm.(mon := t.mon, year := t.year) && t.year * 12 + t.mon == tm.year * 12 + tm.mon
      invariant t.mon < 12 || t == tm
      decreases -t.mon
    {
      t := t.(mon := t.mon + 12, year := t.year - 1);
    }
    while t.mon >= 12
      invariant t == tm.(mon := t.mon, year := t.year) && t.year * 12 + t.mon == tm.year * 12 + tm.mon && t.mon >= 0
      decreases t.mon
    {
      t := t.(mon := t.mon - 12, year := t.year + 1);
    }
    var maxDays := DaysInMonth(t.year + 1900, t.mon);
    if t.mday > maxDays {
      t := t.(mday := maxDays);
    }
    CarriedDay(tm, t);
    TmToDaysSplit(t);
    r := DaysToTm(TmToDays(t));
    hide DaysInMonth, MeantDay;
    ClockBack(SecondsOf(tm));
    WeekDaysAgree(MeantDay(tm));
    if MeantDay(tm) >= FIRST_DAY {
      DayOfDate(MeantDay(tm));
      YearDay(r.year + 1900, r.mon, r.mday);
    }
  }

  lemma CarriedDay(tm: Tm, t: Tm)
    requires t.year * 12 + t.mon == tm.year * 12 + tm.mon && 0 <= t.mon < 12
    requires var last := DaysInMonth(t.year + 1900, t.mon); t.mday == if tm.mday > last then last else tm.mday
    requires t.hour == tm.hour && t.min == tm.min && t.sec == tm.sec
    ensures MeantDay(tm) == Jdn(t.year + 1900, t.mon + 1, t.mday) + SecondsOf(t) / 86400 && SecondsOf(t) == SecondsOf(tm)
  {
    hide Jdn, DaysInMonth;
    MonthsCarried(tm.year, tm.mon, t.year, t.mon);
    JdnShift(t.year + 1900, t.mon + 1, t.mday);
  }

  lemma MonthsCarried(year0: int, mon0: int, year: int, mon: int)
    requires year * 12 + mon == year0 * 12 + mon0 && 0 <= mon < 12
    ensures year == year0 + mon0 / 12 && mon == mon0 % 12
  {
  }

  lemma JdnShift(year: int, month: int, day: int)
    ensures Jdn(year, month, day) == Jdn(year, month, 1) + day - 1
  {
  }

  /** Just before, the rounding toward zero gives 29 February and 1 March -4800 one number. */
  lemma DaysCollide()
    ensures JdnOf(Date(-4800, 1, 29)) == JdnOf(Date(-4800, 2, 1)) == -32044
  {
  }
}
