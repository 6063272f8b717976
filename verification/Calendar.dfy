/** Day numbers (Date.cc) and UTC times (TimeZone.cc). */
module Calendar {
  import opened Arithmetic

  // ---------------------------------------------------------------- the calendar

  datatype YearMonthDay = YearMonthDay(year: int, month: int, day: int)

  predicate Leap(year: int) {
    year % 4 == 0 && (year % 100 != 0 || year % 400 == 0)
  }

  function DaysInMonth(year: int, month: int): int {
    if month == 2 then (if Leap(year) then 29 else 28)
    else if month in {4, 6, 9, 11} then 30
    else 31
  }

  predicate Valid(date: YearMonthDay) {
    1 <= date.month <= 12 && 1 <= date.day <= DaysInMonth(date.year, date.month)
  }

  function NextDay(date: YearMonthDay): YearMonthDay {
    if date.day < DaysInMonth(date.year, date.month) then date.(day := date.day + 1)
    else if date.month < 12 then YearMonthDay(date.year, date.month + 1, 1)
    else YearMonthDay(date.year + 1, 1, 1)
  }

  // ---------------------------------------------------------------- Date.cc

  /** Years begin with March and count from 4801 BC. */
  function ShiftedYear(year: int, month: int): int {
    year + 4800 - Quot(14 - month, 12)
  }

  function ShiftedMonth(month: int): int {
    month + 12 * Quot(14 - month, 12) - 3
  }

  function JulianDayNumber(date: YearMonthDay): int {
    var y := ShiftedYear(date.year, date.month);
    var m := ShiftedMonth(date.month);
    date.day + Quot(153 * m + 2, 5) + y * 365 + Quot(y, 4) - Quot(y, 100) + Quot(y, 400) - 32045
  }

  function GetYearMonthDay(julianDayNumber: int): YearMonthDay {
    var a := julianDayNumber + 32044;
    var b := Quot(4 * a + 3, 146097);
    FromCentury(b, a - Quot(b * 146097, 4))
  }

  /** The assignments to d and e. */
  function FromCentury(b: int, c: int): YearMonthDay {
    var d := Quot(4 * c + 3, 1461);
    FromYear(b, d, c - Quot(1461 * d, 4))
  }

  /** The assignment to m. */
  function FromYear(b: int, d: int, e: int): YearMonthDay {
    FromParts(b, d, e, Quot(5 * e + 2, 153))
  }

  /** The last three assignments, to the fields of the result. */
  function FromParts(b: int, d: int, e: int, m: int): YearMonthDay {
    YearMonthDay(b * 100 + d - 4800 + Quot(m, 10), m + 3 - 12 * Quot(m, 10), e - Quot(153 * m + 2, 5) + 1)
  }

  const JULIAN_DAY_OF_1970_01_01 := JulianDayNumber(YearMonthDay(1970, 1, 1))

  /** The shifted year is not negative. */
  predicate Representable(date: YearMonthDay) {
    Valid(date) && ShiftedYear(date.year, date.month) >= 0
  }

  // ---------------------------------------------------------------- centuries, years, months

  /** Day number c of the century C, day number e of the year D in it. */
  predicate InCentury(C: int, c: int) {
    0 <= c <= 36524 && (c == 36524 ==> C % 4 == 3)
  }

  predicate InYear(D: int, e: int) {
    0 <= e <= 365 && (e == 365 ==> D % 4 == 3)
  }

  lemma CenturyDays(C: int)
    requires C >= 0
    ensures C * 146097 / 4 == 36524 * C + C / 4
  {
  }

  lemma YearDays(D: int)
    requires D >= 0
    ensures 1461 * D / 4 == 365 * D + D / 4
  {
  }

  lemma FindCentury(C: int, c: int)
    requires C >= 0 && InCentury(C, c)
    ensures (4 * (36524 * C + C / 4 + c) + 3) / 146097 == C
  {
    var k, r := C / 4, C % 4;
    assert 4 * (36524 * C + k + c) + 3 == 146097 * C + (4 * c + 3 - r);
  }

  /** Every day number is in exactly one century. */
  lemma CenturyFound(a: int)
    requires a >= 0
    ensures var C := (4 * a + 3) / 146097; C >= 0 && InCentury(C, a - (36524 * C + C / 4))
  {
    var C := (4 * a + 3) / 146097;
    var k, r := C / 4, C % 4;
    var c := a - (36524 * C + k);
    assert 4 * a + 3 == 146097 * C + (4 * c + 3 - r);
  }

  lemma FindYear(D: int, e: int)
    requires 0 <= D && InYear(D, e)
    ensures (4 * (365 * D + D / 4 + e) + 3) / 1461 == D
  {
    var k, r := D / 4, D % 4;
    assert 4 * (365 * D + k + e) + 3 == 1461 * D + (4 * e + 3 - r);
  }

  lemma YearFound(c: int)
    requires 0 <= c <= 36524
    ensures var D := (4 * c + 3) / 1461; 0 <= D <= 99 && InYear(D, c - (365 * D + D / 4))
  {
    var D := (4 * c + 3) / 1461;
    var k, r := D / 4, D % 4;
    var e := c - (365 * D + k);
    assert 4 * c + 3 == 1461 * D + (4 * e + 3 - r);
  }

  /** The first day of a month, counted from the first of March. */
  function MonthStart(m: int): int {
    (153 * m + 2) / 5
  }

  lemma MonthLengths(year: int, month: int)
    requires 1 <= month <= 12
    ensures
      var m := ShiftedMonth(month);
      0 <= m <= 11 && (month != 2 ==> MonthStart(m + 1) == MonthStart(m) + DaysInMonth(year, month))
    ensures month == 2 ==> MonthStart(ShiftedMonth(month)) == 337
  {
  }

  lemma FindMonth(m: int, e: int)
    requires 0 <= m <= 11 && MonthStart(m) <= e < MonthStart(m + 1)
    ensures (5 * e + 2) / 153 == m
  {
  }

  lemma MonthFound(e: int)
    requires 0 <= e <= 365
    ensures var m := (5 * e + 2) / 153; 0 <= m <= 11 && MonthStart(m) <= e < MonthStart(m + 1)
  {
  }

  // ---------------------------------------------------------------- dates and day numbers

  function DayOfYear(date: YearMonthDay): int {
    MonthStart(ShiftedMonth(date.month)) + date.day - 1
  }

  /** Where a date lies: century, year of the century, day of the year. */
  lemma Located(date: YearMonthDay)
    requires Representable(date)
    ensures
      var y := ShiftedYear(date.year, date.month);
      var C, D, e := y / 100, y % 100, DayOfYear(date);
      && InYear(D, e) && InCentury(C, 365 * D + D / 4 + e)
      && JulianDayNumber(date) + 32044 == 36524 * C + C / 4 + (365 * D + D / 4 + e)
  {
    var y := ShiftedYear(date.year, date.month);
    var C, D, e := y / 100, y % 100, DayOfYear(date);
    MonthLengths(date.year, date.month);
    Leapness(y);
    assert y == 100 * C + D;
    assert y / 4 == 25 * C + D / 4 && y / 400 == C / 4;
  }

  lemma Leapness(y: int)
    requires y >= 0
    ensures Leap(y - 4800 + 1) <==> (y % 100) % 4 == 3 && (y % 100 == 99 ==> (y / 100) % 4 == 3)
  {
    var C, D := y / 100, y % 100;
    var k, r := D / 4, D % 4;
    var n := y + 1;
    LeapByRemainders(n);
    if r < 3 {
      DivUnique(n, 4, 25 * C + k, r + 1);
    } else {
      DivUnique(n, 4, 25 * C + k + 1, 0);
    }
    if D < 99 {
      DivUnique(n, 100, C, D + 1);
    } else {
      DivUnique(n, 100, C + 1, 0);
      CenturyLeap(n, C);
    }
  }

  lemma CenturyLeap(n: int, C: int)
    requires n == 100 * (C + 1) && C >= 0
    ensures n % 400 == 0 <==> C % 4 == 3
  {
    var q, r := C / 4, C % 4;
    if r < 3 {
      DivUnique(n, 400, q, 100 * (r + 1));
    } else {
      DivUnique(n, 400, q + 1, 0);
    }
  }

  lemma SameRemainders(n: int)
    ensures (n - 4800) % 4 == n % 4 && (n - 4800) % 100 == n % 100 && (n - 4800) % 400 == n % 400
  {
    DivUnique(n - 4800, 4, n / 4 - 1200, n % 4);
    DivUnique(n - 4800, 100, n / 100 - 48, n % 100);
    DivUnique(n - 4800, 400, n / 400 - 12, n % 400);
  }

  lemma LeapByRemainders(n: int)
    ensures Leap(n - 4800) <==> n % 4 == 0 && (n % 100 != 0 || n % 400 == 0)
  {
    SameRemainders(n);
  }

  /** The date in century C, year D and month m with `rest` days of the month gone. */
  function Assembled(C: int, D: int, m: int, rest: int): YearMonthDay
    requires 0 <= m <= 11
  {
    YearMonthDay(C * 100 + D - 4800 + m / 10, m + 3 - 12 * (m / 10), rest + 1)
  }

  lemma DecodedCentury(a: int, C: int, c: int)
    requires C >= 0 && InCentury(C, c) && a == 36524 * C + C / 4 + c
    ensures Quot(4 * a + 3, 146097) == C && a - Quot(C * 146097, 4) == c
  {
    FindCentury(C, c);
    CenturyDays(C);
  }

  lemma DecodedYear(c: int, D: int, e: int)
    requires 0 <= D && InYear(D, e) && c == 365 * D + D / 4 + e
    ensures Quot(4 * c + 3, 1461) == D && c - Quot(1461 * D, 4) == e
  {
    FindYear(D, e);
    YearDays(D);
  }

  lemma DecodedMonth(e: int, m: int)
    requires 0 <= m <= 11 && MonthStart(m) <= e < MonthStart(m + 1)
    ensures Quot(5 * e + 2, 153) == m && Quot(m, 10) == m / 10 && Quot(153 * m + 2, 5) == MonthStart(m)
  {
    FindMonth(m, e);
  }

  /** Decoding goes century, year, month. */
  lemma Decoded(julianDayNumber: int, C: int, D: int, m: int, e: int)
    requires C >= 0 && InYear(D, e) && 0 <= D && InCentury(C, 365 * D + D / 4 + e)
    requires 0 <= m <= 11 && MonthStart(m) <= e < MonthStart(m + 1)
    requires julianDayNumber + 32044 == 36524 * C + C / 4 + (365 * D + D / 4 + e)
    ensures GetYearMonthDay(julianDayNumber) == Assembled(C, D, m, e - MonthStart(m))
  {
    var c := 365 * D + D / 4 + e;
    DecodedCentury(julianDayNumber + 32044, C, c);
    DecodedYear(c, D, e);
    DecodedMonth(e, m);
    Decoding(julianDayNumber, C, c, D, e, m);
  }

  lemma PartsAssembled(C: int, D: int, e: int, m: int)
    requires 0 <= m <= 11 && Quot(m, 10) == m / 10 && Quot(153 * m + 2, 5) == MonthStart(m)
    ensures FromParts(C, D, e, m) == Assembled(C, D, m, e - MonthStart(m))
  {
  }

  /** The steps of the code put together. */
  lemma Decoding(julianDayNumber: int, C: int, c: int, D: int, e: int, m: int)
    requires Quot(4 * (julianDayNumber + 32044) + 3, 146097) == C && julianDayNumber + 32044 - Quot(C * 146097, 4) == c
    requires Quot(4 * c + 3, 1461) == D && c - Quot(1461 * D, 4) == e
    requires Quot(5 * e + 2, 153) == m && 0 <= m <= 11 && Quot(m, 10) == m / 10 && Quot(153 * m + 2, 5) == MonthStart(m)
    ensures GetYearMonthDay(julianDayNumber) == Assembled(C, D, m, e - MonthStart(m))
  {
    CenturyTaken(julianDayNumber, C, c);
    YearTaken(C, c, D, e);
    PartsAssembled(C, D, e, m);
  }

  lemma CenturyTaken(julianDayNumber: int, C: int, c: int)
    requires Quot(4 * (julianDayNumber + 32044) + 3, 146097) == C && julianDayNumber + 32044 - Quot(C * 146097, 4) == c
    ensures GetYearMonthDay(julianDayNumber) == FromCentury(C, c)
  {
  }

  lemma YearTaken(C: int, c: int, D: int, e: int)
    requires Quot(4 * c + 3, 1461) == D && c - Quot(1461 * D, 4) == e
    ensures FromCentury(C, c) == FromYear(C, D, e)
  {
  }

  lemma DateOfDay(date: YearMonthDay)
    requires Representable(date)
    ensures GetYearMonthDay(JulianDayNumber(date)) == date
  {
    var y := ShiftedYear(date.year, date.month);
    var e := DayOfYear(date);
    var m := ShiftedMonth(date.month);
    Located(date);
    InItsMonth(date);
    Decoded(JulianDayNumber(date), y / 100, y % 100, m, e);
    assert y == y / 100 * 100 + y % 100;
    Reassembled(date);
  }

  lemma InItsMonth(date: YearMonthDay)
    requires Representable(date)
    ensures
      var m := ShiftedMonth(date.month);
      0 <= m <= 11 && MonthStart(m) <= DayOfYear(date) < MonthStart(m + 1)
  {
    MonthLengths(date.year, date.month);
  }

  lemma Reassembled(date: YearMonthDay)
    requires 1 <= date.month <= 12
    ensures
      var y, m := ShiftedYear(date.year, date.month), ShiftedMonth(date.month);
      0 <= m <= 11 && date == YearMonthDay(y - 4800 + m / 10, m + 3 - 12 * (m / 10), date.day)
  {
  }

  /** A place in the calendar is a date that exists. */
  lemma AssembledIsValid(C: int, D: int, m: int, e: int)
    requires C >= 0 && 0 <= D <= 99 && InYear(D, e) && InCentury(C, 365 * D + D / 4 + e)
    requires 0 <= m <= 11 && MonthStart(m) <= e < MonthStart(m + 1)
    ensures
      var date := Assembled(C, D, m, e - MonthStart(m));
      && Representable(date) && ShiftedYear(date.year, date.month) == 100 * C + D && ShiftedMonth(date.month) == m
      && DayOfYear(date) == e
  {
    var date := Assembled(C, D, m, e - MonthStart(m));
    assert ShiftedYear(date.year, date.month) == 100 * C + D && ShiftedMonth(date.month) == m;
    MonthLengths(date.year, date.month);
    Leapness(100 * C + D);
    assert (100 * C + D) / 100 == C && (100 * C + D) % 100 == D;
  }

  /** The place of a day number. */
  lemma PlaceOf(a: int) returns (C: int, D: int, m: int, e: int)
    requires a >= 0
    ensures C >= 0 && 0 <= D <= 99 && InYear(D, e) && InCentury(C, 365 * D + D / 4 + e)
    ensures 0 <= m <= 11 && MonthStart(m) <= e < MonthStart(m + 1)
    ensures a == 36524 * C + C / 4 + (365 * D + D / 4 + e)
  {
    CenturyFound(a);
    C := (4 * a + 3) / 146097;
    var c := a - (36524 * C + C / 4);
    YearFound(c);
    D := (4 * c + 3) / 1461;
    e := c - (365 * D + D / 4);
    MonthFound(e);
    m := (5 * e + 2) / 153;
  }

  lemma AssembledNumber(C: int, D: int, m: int, e: int)
    requires C >= 0 && 0 <= D <= 99 && InYear(D, e) && InCentury(C, 365 * D + D / 4 + e)
    requires 0 <= m <= 11 && MonthStart(m) <= e < MonthStart(m + 1)
    ensures
      var date := Assembled(C, D, m, e - MonthStart(m));
      Representable(date) && JulianDayNumber(date) + 32044 == 36524 * C + C / 4 + (365 * D + D / 4 + e)
  {
    AssembledIsValid(C, D, m, e);
    Located(Assembled(C, D, m, e - MonthStart(m)));
    DivUnique(100 * C + D, 100, C, D);
  }

  lemma DayOfDate(julianDayNumber: int)
    requires julianDayNumber >= -32044
    ensures Representable(GetYearMonthDay(julianDayNumber))
    ensures JulianDayNumber(GetYearMonthDay(julianDayNumber)) == julianDayNumber
  {
    var C, D, m, e := PlaceOf(julianDayNumber + 32044);
    Decoded(julianDayNumber, C, D, m, e);
    AssembledNumber(C, D, m, e);
  }

  /** One stage of decoding a number before the first: it stays negative. */
  lemma StaysNegative(a: int, n: int)
    requires a < 0 && n > 0
    ensures var b := Quot(4 * a + 3, n); b <= 0 && a - Quot(b * n, 4) < 0
  {
    var k := -(4 * a + 3);
    var q := k / n;
    assert q * n <= k && q >= 0;
    assert -q * n == -(q * n);
  }

  /** Such numbers decode to dates that do not exist. */
  lemma TooEarly(julianDayNumber: int)
    requires julianDayNumber < -32044
    ensures GetYearMonthDay(julianDayNumber).day <= 0
  {
    var a := julianDayNumber + 32044;
    StaysNegative(a, 146097);
    var b := Quot(4 * a + 3, 146097);
    var c := a - Quot(b * 146097, 4);
    StaysNegative(c, 1461);
    var d := Quot(4 * c + 3, 1461);
    var e := c - Quot(1461 * d, 4);
    var m := Quot(5 * e + 2, 153);
    assert 153 * -m <= -(5 * e + 2);
  }

  /** The last day of February, the last of the shifted year. */
  lemma AfterFebruary(year: int)
    requires ShiftedYear(year, 2) >= 0
    ensures ShiftedYear(year, 3) == ShiftedYear(year, 2) + 1
    ensures JulianDayNumber(YearMonthDay(year, 3, 1)) == JulianDayNumber(YearMonthDay(year, 2, DaysInMonth(year, 2))) + 1
  {
    var y := ShiftedYear(year, 2);
    YearLength(y);
    assert y - 4800 + 1 == year;
  }

  lemma AfterOtherMonth(year: int, month: int)
    requires 1 <= month <= 12 && month != 2 && ShiftedYear(year, month) >= 0
    ensures
      var next := if month < 12 then YearMonthDay(year, month + 1, 1) else YearMonthDay(year + 1, 1, 1);
      && ShiftedYear(next.year, next.month) == ShiftedYear(year, month)
      && JulianDayNumber(next) == JulianDayNumber(YearMonthDay(year, month, DaysInMonth(year, month))) + 1
  {
    MonthLengths(year, month);
    var next := if month < 12 then YearMonthDay(year, month + 1, 1) else YearMonthDay(year + 1, 1, 1);
    assert ShiftedMonth(next.month) == ShiftedMonth(month) + 1;
  }

  /** Consecutive dates have consecutive numbers. */
  lemma NextDayIsNext(date: YearMonthDay)
    requires Representable(date)
    ensures Representable(NextDay(date))
    ensures JulianDayNumber(NextDay(date)) == JulianDayNumber(date) + 1
  {
    if date.day == DaysInMonth(date.year, date.month) {
      if date.month == 2 {
        AfterFebruary(date.year);
      } else {
        AfterOtherMonth(date.year, date.month);
      }
    }
  }

  lemma Divisors(n: int)
    ensures (n % 400 == 0 ==> n % 100 == 0) && (n % 100 == 0 ==> n % 4 == 0)
  {
    if n % 400 == 0 {
      DivUnique(n, 100, n / 400 * 4, 0);
    }
    if n % 100 == 0 {
      DivUnique(n, 4, n / 100 * 25, 0);
    }
  }

  /** The days of the calendar years, leap days counted. */
  lemma YearLength(y: int)
    requires y >= 0
    ensures (y + 1) / 4 - (y + 1) / 100 + (y + 1) / 400 == y / 4 - y / 100 + y / 400 + if Leap(y - 4800 + 1) then 1 else 0
  {
    var n := y + 1;
    DivStep(y, 4);
    DivStep(y, 100);
    DivStep(y, 400);
    Divisors(n);
    LeapByRemainders(n);
  }

  /** The numbers count the days. */
  lemma {:induction false} DaysCount(date: YearMonthDay, n: nat) returns (later: YearMonthDay)
    requires Representable(date)
    ensures Representable(later) && JulianDayNumber(later) == JulianDayNumber(date) + n
    ensures later == DaysAfter(date, n)
    decreases n
  {
    if n == 0 {
      later := date;
    } else {
      NextDayIsNext(date);
      later := DaysCount(NextDay(date), n - 1);
    }
  }

  function DaysAfter(date: YearMonthDay, n: nat): YearMonthDay
    decreases n
  {
    if n == 0 then date else DaysAfter(NextDay(date), n - 1)
  }

  // ---------------------------------------------------------------- TimeZone.cc

  const SECONDS_PER_DAY := 24 * 60 * 60

  /** struct tm, with its offsets of 1900 and 1. */
  datatype Tm = Tm(sec: int, min: int, hour: int, mday: int, mon: int, year: int, wday: int, yday: int)

  function DateOf(tm: Tm): YearMonthDay {
    YearMonthDay(tm.year + 1900, tm.mon + 1, tm.mday)
  }

  predicate ValidTm(tm: Tm) {
    0 <= tm.sec < 60 && 0 <= tm.min < 60 && 0 <= tm.hour < 24 && Representable(DateOf(tm))
  }

  function FromUtcTime(tm: Tm): int {
    var secondsInDay := tm.hour * 3600 + tm.min * 60 + tm.sec;
    var days := JulianDayNumber(DateOf(tm)) - JULIAN_DAY_OF_1970_01_01;
    days * SECONDS_PER_DAY + secondsInDay
  }

  lemma EpochDay()
    ensures JULIAN_DAY_OF_1970_01_01 == 2440588
  {
  }

  /** The day of the week, Sunday being 0: the epoch was a Thursday. */
  function WeekDay(julianDayNumber: int): int {
    Rem(julianDayNumber + 1, 7)
  }

  /** The first of January 1970 was a Thursday. */
  lemma EpochIsThursday()
    ensures WeekDay(JulianDayNumber(YearMonthDay(1970, 1, 1))) == 4
  {
  }

  /** The day of the week is one of seven and goes on by one a day, counted from that Thursday,
      exactly from day number -1 on: before it the remainder is negative. */
  lemma WeekDays(julianDayNumber: int)
    ensures
      var w := (4 + (julianDayNumber - 2440588)) % 7;
      WeekDay(julianDayNumber) == if julianDayNumber >= -1 || w == 0 then w else w - 7
  {
  }

  /** The first second whose day has a number that the calendar can decode. */
  const FIRST_SECOND := (-32044 - 2440588) * SECONDS_PER_DAY

  /** The days of a year before a month. */
  function DaysBefore(year: int, month: int): int {
    if month <= 1 then 0 else DaysBefore(year, month - 1) + DaysInMonth(year, month - 1)
  }

  /** The first year of which some dates can be decoded: its January and February cannot. */
  const FIRST_YEAR := -4800

  /** How far the number of a date is from that of the first of January as the code computes it. */
  lemma {:induction false} SinceNewYear(year: int, month: int)
    requires 1 <= month <= 12 && Representable(YearMonthDay(year, month, 1))
    ensures JulianDayNumber(YearMonthDay(year, month, 1)) - JulianDayNumber(YearMonthDay(year, 1, 1))
         == DaysBefore(year, month) - if year == FIRST_YEAR then 1 else 0
    decreases month
  {
    if month > 1 {
      if year == FIRST_YEAR && month == 3 {
        FirstMarch();
      } else {
        SinceNewYear(year, month - 1);
        NextMonth(year, month - 1);
      }
    }
  }

  lemma NextMonth(year: int, month: int)
    requires 1 <= month < 12 && Representable(YearMonthDay(year, month, 1))
    ensures JulianDayNumber(YearMonthDay(year, month + 1, 1))
         == JulianDayNumber(YearMonthDay(year, month, 1)) + DaysInMonth(year, month)
  {
    var last := YearMonthDay(year, month, DaysInMonth(year, month));
    NextDayIsNext(last);
    assert JulianDayNumber(last) == JulianDayNumber(YearMonthDay(year, month, 1)) + DaysInMonth(year, month) - 1;
  }

  lemma FirstMarch()
    ensures JulianDayNumber(YearMonthDay(FIRST_YEAR, 3, 1)) - JulianDayNumber(YearMonthDay(FIRST_YEAR, 1, 1)) == 59
    ensures DaysBefore(FIRST_YEAR, 3) == 60
  {
    assert Leap(FIRST_YEAR) && DaysBefore(FIRST_YEAR, 2) == 31;
  }

  lemma YearDay(date: YearMonthDay)
    requires Representable(date)
    ensures JulianDayNumber(date) - JulianDayNumber(YearMonthDay(date.year, 1, 1))
         == DaysBefore(date.year, date.month) + date.day - 1 - if date.year == FIRST_YEAR then 1 else 0
  {
    SinceNewYear(date.year, date.month);
  }

  /** fillHMS */
  method FillHMS(seconds: nat, tm0: Tm) returns (tm: Tm)
    requires seconds < SECONDS_PER_DAY
    ensures tm == tm0.(sec := tm.sec, min := tm.min, hour := tm.hour)
    ensures 0 <= tm.sec < 60 && 0 <= tm.min < 60 && 0 <= tm.hour < 24
    ensures tm.hour * 3600 + tm.min * 60 + tm.sec == seconds
  {
    tm := tm0.(sec := seconds % 60);
    var minutes := seconds / 60;
    tm := tm.(min := minutes % 60);
    tm := tm.(hour := minutes / 60);
  }

  /** Date::yearMonthDay */
  method DateOfDayNumber(julianDayNumber: int) returns (ymd: YearMonthDay)
    ensures Representable(ymd) <==> julianDayNumber >= -32044
    ensures julianDayNumber >= -32044 ==> JulianDayNumber(ymd) == julianDayNumber
  {
    if julianDayNumber >= -32044 {
      DayOfDate(julianDayNumber);
    } else {
      TooEarly(julianDayNumber);
    }
    ymd := GetYearMonthDay(julianDayNumber);
  }

  /** The first lines of toUtcTime: days and the second of the day, for times before 1970 too. */
  method SplitDays(secondsSinceEpoch: int) returns (days: int, seconds: int)
    ensures days * SECONDS_PER_DAY + seconds == secondsSinceEpoch && 0 <= seconds < SECONDS_PER_DAY
  {
    seconds := Rem(secondsSinceEpoch, SECONDS_PER_DAY);
    days := Quot(secondsSinceEpoch, SECONDS_PER_DAY);
    if seconds < 0 {
      seconds := seconds + SECONDS_PER_DAY;
      days := days - 1;
    }
  }

  method ToUtcTime(secondsSinceEpoch: int, yday: bool) returns (tm: Tm)
    ensures ValidTm(tm) <==> secondsSinceEpoch >= FIRST_SECOND
    ensures secondsSinceEpoch >= FIRST_SECOND ==>
      FromUtcTime(tm) == secondsSinceEpoch
    ensures
      var day := JulianDayNumber(DateOf(tm)) - 2440588;
      secondsSinceEpoch >= FIRST_SECOND && day >= -2440589 ==> tm.wday == (4 + day) % 7
    ensures
      var day := JulianDayNumber(DateOf(tm)) - 2440588;
      secondsSinceEpoch >= FIRST_SECOND && day < -2440589 ==>
        tm.wday == if (4 + day) % 7 == 0 then 0 else (4 + day) % 7 - 7
    ensures secondsSinceEpoch >= FIRST_SECOND ==>
      tm.yday == if !yday then 0
                 else DaysBefore(tm.year + 1900, tm.mon + 1) + tm.mday - 1
                      - if tm.year + 1900 == FIRST_YEAR then 1 else 0
  {
    var utc := Tm(0, 0, 0, 0, 0, 0, 0, 0);
    var days, seconds := SplitDays(secondsSinceEpoch);
    utc := FillHMS(seconds, utc);
    var date := DayNumber(days);
    var ymd := DateOfDayNumber(date);
    utc := utc.(year := ymd.year - 1900, mon := ymd.month - 1, mday := ymd.day, wday := WeekDay(date));
    if yday {
      var day := DayInYear(ymd, date);
      utc := utc.(yday := day);
    }
    tm := utc;
    Stamped(tm, date, days, seconds, secondsSinceEpoch);
    WeekDays(date);
  }

  method DayNumber(days: int) returns (julianDayNumber: int)
    ensures julianDayNumber == days + 2440588
  {
    EpochDay();
    julianDayNumber := days + JULIAN_DAY_OF_1970_01_01;
  }

  /** The branch for tm_yday. */
  method DayInYear(ymd: YearMonthDay, date: int) returns (yday: int)
    requires Representable(ymd) ==> JulianDayNumber(ymd) == date
    ensures Representable(ymd) ==>
      yday == DaysBefore(ymd.year, ymd.month) + ymd.day - 1 - if ymd.year == FIRST_YEAR then 1 else 0
  {
    var startOfYear := JulianDayNumber(YearMonthDay(ymd.year, 1, 1));
    yday := date - startOfYear;
    if Representable(ymd) {
      YearDay(ymd);
    }
  }

  lemma Stamped(tm: Tm, date: int, days: int, seconds: int, secondsSinceEpoch: int)
    requires date == days + 2440588 && days * SECONDS_PER_DAY + seconds == secondsSinceEpoch
    requires 0 <= seconds < SECONDS_PER_DAY && tm.hour * 3600 + tm.min * 60 + tm.sec == seconds
    requires date >= -32044 ==> JulianDayNumber(DateOf(tm)) == date
    ensures date >= -32044 <==> secondsSinceEpoch >= FIRST_SECOND
    ensures date >= -32044 ==> FromUtcTime(tm) == secondsSinceEpoch
  {
    EpochDay();
  }

  lemma InSeconds(tm: Tm)
    ensures FromUtcTime(tm)
         == (JulianDayNumber(DateOf(tm)) - 2440588) * SECONDS_PER_DAY + (tm.hour * 3600 + tm.min * 60 + tm.sec)
  {
    EpochDay();
  }

  lemma SameTime(j: int, h: int, m: int, s: int, j': int, h': int, m': int, s': int)
    requires 0 <= h < 24 && 0 <= m < 60 && 0 <= s < 60 && 0 <= h' < 24 && 0 <= m' < 60 && 0 <= s' < 60
    requires j * SECONDS_PER_DAY + (h * 3600 + m * 60 + s) == j' * SECONDS_PER_DAY + (h' * 3600 + m' * 60 + s')
    ensures j == j' && h == h' && m == m' && s == s'
  {
  }

  predicate SameFields(a: Tm, b: Tm) {
    DateOf(a) == DateOf(b) && a.hour == b.hour && a.min == b.min && a.sec == b.sec
  }

  lemma SecondDetermines(a: Tm, b: Tm)
    requires ValidTm(a) && ValidTm(b) && FromUtcTime(a) == FromUtcTime(b)
    ensures SameFields(a, b)
  {
    InSeconds(a);
    InSeconds(b);
    SameTime(JulianDayNumber(DateOf(a)) - 2440588, a.hour, a.min, a.sec,
             JulianDayNumber(DateOf(b)) - 2440588, b.hour, b.min, b.sec);
    DateOfDay(DateOf(a));
    DateOfDay(DateOf(b));
  }

  lemma FieldsDetermine(a: Tm, b: Tm)
    requires SameFields(a, b)
    ensures FromUtcTime(a) == FromUtcTime(b)
  {
  }

  /** Fields of a valid time determine its second, and the second determines the fields. */
  lemma OneSecondOneTime(a: Tm, b: Tm)
    requires ValidTm(a) && ValidTm(b)
    ensures FromUtcTime(a) == FromUtcTime(b) <==> SameFields(a, b)
  {
    if SameFields(a, b) {
      FieldsDetermine(a, b);
    } else if FromUtcTime(a) == FromUtcTime(b) {
      SecondDetermines(a, b);
    }
  }

  /** Second 0 is the midnight that begins 1970. */
  lemma SecondZero(tm: Tm)
    requires ValidTm(tm) && FromUtcTime(tm) == 0
    ensures tm.year == 70 && tm.mon == 0 && tm.mday == 1 && tm.hour == 0 && tm.min == 0 && tm.sec == 0
  {
    EpochDay();
    OneSecondOneTime(tm, Tm(0, 0, 0, 1, 0, 70, 4, 0));
  }

  // ---------------------------------------------------------------- int of 32 bits

  predicate IsInt32(x: int) {
    -0x8000_0000 <= x < 0x8000_0000
  }

  /** The last day number that getYearMonthDay decodes without overflow. */
  const LAST_DAY := 0x2000_0000 - 1 - 32044

  /** No result on the way through getYearMonthDay leaves the range of int. */
  predicate DecodingFits(julianDayNumber: int) {
    var a := julianDayNumber + 32044;
    var b := Quot(4 * a + 3, 146097);
    var c := a - Quot(b * 146097, 4);
    var d := Quot(4 * c + 3, 1461);
    var e := c - Quot(1461 * d, 4);
    && IsInt32(a) && IsInt32(4 * a) && IsInt32(4 * a + 3) && IsInt32(b * 146097)
    && IsInt32(4 * c + 3) && IsInt32(1461 * d) && IsInt32(5 * e + 2) && IsInt32(b * 100 + d)
  }

  lemma IntermediatesFit(julianDayNumber: int)
    requires -32044 <= julianDayNumber
    ensures DecodingFits(julianDayNumber) <==> julianDayNumber <= LAST_DAY
  {
    var a := julianDayNumber + 32044;
    CenturyFound(a);
    CenturyDays((4 * a + 3) / 146097);
    var c := a - (36524 * ((4 * a + 3) / 146097) + (4 * a + 3) / 146097 / 4);
    YearFound(c);
    YearDays((4 * c + 3) / 1461);
  }

  /** No result on the way through getJulianDayNumber leaves the range of int. */
  predicate EncodingFits(date: YearMonthDay) {
    var y := ShiftedYear(date.year, date.month);
    var days := Quot(153 * ShiftedMonth(date.month) + 2, 5) + date.day;
    && IsInt32(date.year + 4800) && IsInt32(y) && IsInt32(y * 365)
    && IsInt32(days) && IsInt32(days + y * 365) && IsInt32(days + y * 365 + Quot(y, 4))
    && IsInt32(days + y * 365 + Quot(y, 4) - Quot(y, 100))
    && IsInt32(days + y * 365 + Quot(y, 4) - Quot(y, 100) + Quot(y, 400))
    && IsInt32(JulianDayNumber(date))
  }

  const LAST_YEAR := 5874689

  /** The last date that getJulianDayNumber encodes without overflow is 15 December 5874689. */
  lemma DatesFit(date: YearMonthDay)
    requires Representable(date)
    ensures EncodingFits(date) <==>
      var y := ShiftedYear(date.year, date.month) - 4800;
      y < LAST_YEAR || (y == LAST_YEAR && DayOfYear(date) <= DayOfYear(YearMonthDay(LAST_YEAR, 12, 15)))
  {
    InItsMonth(date);
    var y := ShiftedYear(date.year, date.month);
    assert Quot(y, 4) == y / 4 && Quot(y, 100) == y / 100 && Quot(y, 400) == y / 400;
    assert DayOfYear(YearMonthDay(LAST_YEAR, 12, 15)) == 289;
  }

  function DaysOf(secondsSinceEpoch: int): int {
    Quot(secondsSinceEpoch, SECONDS_PER_DAY) - if Rem(secondsSinceEpoch, SECONDS_PER_DAY) < 0 then 1 else 0
  }

  /** What toUtcTime computes from a day number stays in the range of int. */
  predicate DateFits(date: int) {
    DecodingFits(date) && EncodingFits(YearMonthDay(GetYearMonthDay(date).year, 1, 1))
  }

  /** Neither cast of toUtcTime loses anything and no int on the way overflows. */
  predicate UtcFits(secondsSinceEpoch: int) {
    var date := DaysOf(secondsSinceEpoch) + 2440588;
    && IsInt32(Quot(secondsSinceEpoch, SECONDS_PER_DAY)) && IsInt32(DaysOf(secondsSinceEpoch)) && IsInt32(date)
    && DateFits(date)
  }

  const LAST_SECOND := (LAST_DAY + 1 - 2440588) * SECONDS_PER_DAY - 1

  /** The years that can be decoded lie far within those that can be encoded. */
  lemma NewYearFits(date: YearMonthDay)
    requires Representable(date) && JulianDayNumber(date) <= LAST_DAY
    ensures EncodingFits(YearMonthDay(date.year, 1, 1))
  {
    InItsMonth(date);
    var y := ShiftedYear(date.year, date.month);
    assert Quot(y, 4) == y / 4 && Quot(y, 100) == y / 100 && Quot(y, 400) == y / 400;
    assert y * 365 <= LAST_DAY + 32045;
    var first := ShiftedYear(date.year, 1);
    assert -1 <= first <= y;
    assert first >= 0 ==> Quot(first, 4) == first / 4 && Quot(first, 100) == first / 100 && Quot(first, 400) == first / 400;
  }

  lemma DateRange(date: int)
    requires date >= -32044
    ensures DateFits(date) <==> date <= LAST_DAY
  {
    IntermediatesFit(date);
    if date <= LAST_DAY {
      DayOfDate(date);
      NewYearFits(GetYearMonthDay(date));
    }
  }

  lemma DaysInOrder(secondsSinceEpoch: int)
    requires secondsSinceEpoch >= FIRST_SECOND
    ensures var days := DaysOf(secondsSinceEpoch);
      && days + 2440588 >= -32044 && (days + 2440588 <= LAST_DAY <==> secondsSinceEpoch <= LAST_SECOND)
      && days <= Quot(secondsSinceEpoch, SECONDS_PER_DAY) <= days + 1
  {
  }

  /** toUtcTime works in 32-bit int up to exactly this second, of those whose day can be decoded. */
  lemma UtcRange(secondsSinceEpoch: int)
    requires secondsSinceEpoch >= FIRST_SECOND
    ensures UtcFits(secondsSinceEpoch) <==> secondsSinceEpoch <= LAST_SECOND
  {
    DaysInOrder(secondsSinceEpoch);
    DateRange(DaysOf(secondsSinceEpoch) + 2440588);
  }
}
