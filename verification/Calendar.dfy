/** Dates and timestamps: seconds since the start of 1970, in the proleptic Gregorian calendar. */
module Calendar {
  import opened Basics
  import opened Options

  datatype DateTime = DateTime(year: nat, month: nat, day: nat, hour: nat, min: nat, sec: nat)

  // ---------------------------------------------------------------- the calendar itself

  predicate Leap(y: int) { y % 4 == 0 && (y % 100 != 0 || y % 400 == 0) }

  /** The days of all years before y, counted one year after the other. */
  ghost function DaysBeforeYear(y: nat): int
  {
    if y == 0 then 0 else DaysBeforeYear(y - 1) + 365 + One(Leap(y - 1))
  }

  function DaysInMonth(m: nat, leap: bool): nat
  {
    if m == 2 then 28 + One(leap) else if m == 4 || m == 6 || m == 9 || m == 11 then 30 else 31
  }

  /** The days of a year before month m. */
  ghost function DaysBeforeMonth(m: nat, leap: bool): int
  {
    if m <= 1 then 0 else DaysBeforeMonth(m - 1, leap) + DaysInMonth(m - 1, leap)
  }

  ghost predicate ValidDate(d: DateTime)
  {
    && d.year <= 65535 && 1 <= d.month <= 12 && 1 <= d.day <= DaysInMonth(d.month, Leap(d.year))
    && d.hour < 24 && d.min < 60 && d.sec < 60
  }

  /** The number of a day, counted from the first day of year 0. */
  ghost function DayNumber(y: nat, m: nat, day: int): int
  {
    DaysBeforeYear(y) + DaysBeforeMonth(m, Leap(y)) + day - 1
  }

  const DAYS_TO_1970 := 719528

  /** The timestamp of a date: days counted one by one. */
  ghost function Timestamp(d: DateTime): int
  {
    86400 * (DayNumber(d.year, d.month, d.day) - DAYS_TO_1970) + 3600 * d.hour + 60 * d.min + d.sec
  }

  /** The days before year y by division, for years before 0 too. */
  ghost function JanFirst(y: int): int { 365 * y + (y + 3) / 4 - (y + 99) / 100 + (y + 399) / 400 }

  /** Counting the years and dividing come to the same. */
  lemma {:induction false} YearsByDivision(y: nat)
    ensures DaysBeforeYear(y) == JanFirst(y)
  {
    if y > 0 {
      YearsByDivision(y - 1);
      LeapByDivision(y - 1);
    }
  }

  lemma {:induction false} LeapByDivision(y: int)
    ensures (y + 4) / 4 - (y + 3) / 4 == One(y % 4 == 0)
    ensures (y + 100) / 100 - (y + 99) / 100 == One(y % 100 == 0)
    ensures (y + 400) / 400 - (y + 399) / 400 == One(y % 400 == 0)
    ensures (y % 100 == 0 ==> y % 4 == 0) && (y % 400 == 0 ==> y % 100 == 0)
  {
    FourthYear(y);
    Century(y);
    FourthCentury(y);
  }

  lemma {:induction false} FourthYear(y: int)
    ensures (y + 4) / 4 - (y + 3) / 4 == One(y % 4 == 0)
  {
  }

  lemma {:induction false} Century(y: int)
    ensures (y + 100) / 100 - (y + 99) / 100 == One(y % 100 == 0) && (y % 100 == 0 ==> y % 4 == 0)
  {
    var q := y / 100;
    assert y % 100 == 0 ==> y == 4 * (25 * q);
  }

  lemma {:induction false} FourthCentury(y: int)
    ensures (y + 400) / 400 - (y + 399) / 400 == One(y % 400 == 0) && (y % 400 == 0 ==> y % 100 == 0)
  {
    var q := y / 400;
    assert y % 400 == 0 ==> y == 100 * (4 * q);
  }

  lemma {:induction false} MonthTable(leap: bool)
    ensures DaysBeforeMonth(1, leap) == 0 && DaysBeforeMonth(2, leap) == 31
    ensures DaysBeforeMonth(3, leap) == 59 + One(leap)
    ensures DaysBeforeMonth(4, leap) == 90 + One(leap) && DaysBeforeMonth(5, leap) == 120 + One(leap)
    ensures DaysBeforeMonth(6, leap) == 151 + One(leap) && DaysBeforeMonth(7, leap) == 181 + One(leap)
    ensures DaysBeforeMonth(8, leap) == 212 + One(leap) && DaysBeforeMonth(9, leap) == 243 + One(leap)
    ensures DaysBeforeMonth(10, leap) == 273 + One(leap) && DaysBeforeMonth(11, leap) == 304 + One(leap)
    ensures DaysBeforeMonth(12, leap) == 334 + One(leap) && DaysBeforeMonth(13, leap) == 365 + One(leap)
  {
    assert DaysBeforeMonth(2, leap) == 31;
    assert DaysBeforeMonth(3, leap) == 59 + One(leap);
    assert DaysBeforeMonth(4, leap) == 90 + One(leap);
    assert DaysBeforeMonth(5, leap) == 120 + One(leap);
    assert DaysBeforeMonth(6, leap) == 151 + One(leap);
    assert DaysBeforeMonth(7, leap) == 181 + One(leap);
    assert DaysBeforeMonth(8, leap) == 212 + One(leap);
    assert DaysBeforeMonth(9, leap) == 243 + One(leap);
    assert DaysBeforeMonth(10, leap) == 273 + One(leap);
    assert DaysBeforeMonth(11, leap) == 304 + One(leap);
    assert DaysBeforeMonth(12, leap) == 334 + One(leap);
  }

  // ---------------------------------------------------------------- division as in C

  /** Division that rounds toward zero. */
  function Quotient(a: int, b: int): int
    requires b > 0
  {
    if a >= 0 then a / b else -((-a) / b)
  }

  function Remainder(a: int, b: int): int
    requires b > 0
  {
    a - b * Quotient(a, b)
  }

  /** The correction of a negative remainder makes it the division that rounds down. */
  lemma {:induction false} RoundsDown(a: int, b: int)
    requires b == 400 || b == 86400 || b == 146097
    ensures var q, r := Quotient(a, b), Remainder(a, b);
      var down := One(r < 0);
      q - down == a / b && r + b * down == a % b
  {
  }

  // ---------------------------------------------------------------- dates to timestamps

  /** The branch of __year_to_secs for 1902 to 2038; years count from 1900. */
  function FastYear(year: int): (int, bool)
  {
    var leaps, leap := (year - 68) / 4, (year - 68) % 4 == 0;
    (31536000 * (year - 70) + 86400 * (leaps - One(leap)), leap)
  }

  /** What the general branch makes of the years within four centuries: leap days, and whether it is a leap year. */
  function LeapsWithin(rem: nat): (int, bool)
  {
    if rem == 0 then (0, true)
    else
      var centuries := if rem >= 300 then 3 else if rem >= 200 then 2 else if rem >= 100 then 1 else 0;
      var r := rem - 100 * centuries;
      if r == 0 then (24 * centuries, false) else (r / 4 + 24 * centuries, r % 4 == 0)
  }

  /** The general branch of __year_to_secs. */
  function GeneralYear(year: int): (int, bool)
  {
    var down := One(Remainder(year - 100, 400) < 0);
    var cycles, rem := Quotient(year - 100, 400) - down, Remainder(year - 100, 400) + 400 * down;
    if rem < 0 then (0, false)
    else
      var (leaps, leap) := LeapsWithin(rem);
      ((year - 100) * 31536000 + (leaps + 97 * cycles - One(leap)) * 86400 + 946684800 + 86400, leap)
  }

  /** __year_to_secs. */
  function YearToSecs(year: int): (int, bool)
  {
    if 2 <= year <= 138 then FastYear(year) else GeneralYear(year)
  }

  lemma {:induction false} LeapsWithinIs(rem: nat)
    requires rem < 400
    ensures LeapsWithin(rem).1 == Leap(rem)
    ensures LeapsWithin(rem).0 - One(LeapsWithin(rem).1) + 1 == (rem + 3) / 4 - (rem + 99) / 100 + (rem + 399) / 400
  {
    if rem > 0 {
      var c := if rem >= 300 then 3 else if rem >= 200 then 2 else if rem >= 100 then 1 else 0;
      var r := rem - 100 * c;
      CenturyFour(c, r);
      CenturyHundred(c, r);
      Quarter(r);
      assert (rem + 399) / 400 == 1 && rem % 400 == rem;
    }
  }

  lemma {:induction false} CenturyFour(c: nat, r: nat)
    ensures (100 * c + r + 3) / 4 == 25 * c + (r + 3) / 4 && (100 * c + r) % 4 == r % 4
  {
  }

  lemma {:induction false} CenturyHundred(c: nat, r: nat)
    requires r < 100
    ensures (100 * c + r + 99) / 100 == c + One(r > 0) && (100 * c + r) % 100 == r
  {
  }

  lemma {:induction false} Quarter(r: nat)
    ensures (r + 3) / 4 == r / 4 + One(r % 4 != 0)
  {
  }

  /** Whole cycles of four centuries do not matter for the divisions. */
  lemma {:induction false} CyclesOut(y: int, cycles: int, rem: nat)
    requires y == 2000 + 400 * cycles + rem && rem < 400
    ensures (y + 3) / 4 == 500 + 100 * cycles + (rem + 3) / 4
    ensures (y + 99) / 100 == 20 + 4 * cycles + (rem + 99) / 100
    ensures (y + 399) / 400 == 5 + cycles + (rem + 399) / 400
    ensures Leap(y) == Leap(rem)
  {
    CyclesFour(y, cycles, rem);
    CyclesHundred(y, cycles, rem);
    CyclesFourHundred(y, cycles, rem);
  }

  lemma {:induction false} CyclesFour(y: int, cycles: int, rem: nat)
    requires y == 2000 + 400 * cycles + rem
    ensures (y + 3) / 4 == 500 + 100 * cycles + (rem + 3) / 4 && y % 4 == rem % 4
  {
  }

  lemma {:induction false} CyclesHundred(y: int, cycles: int, rem: nat)
    requires y == 2000 + 400 * cycles + rem
    ensures (y + 99) / 100 == 20 + 4 * cycles + (rem + 99) / 100 && y % 100 == rem % 100
  {
  }

  lemma {:induction false} CyclesFourHundred(y: int, cycles: int, rem: nat)
    requires y == 2000 + 400 * cycles + rem
    ensures (y + 399) / 400 == 5 + cycles + (rem + 399) / 400 && y % 400 == rem % 400
  {
    DividedBy400(y + 399, 5 + cycles + (rem + 399) / 400, (rem + 399) % 400);
    DividedBy400(y, 5 + cycles + rem / 400, rem % 400);
  }

  lemma {:induction false} DividedBy400(x: int, q: int, r: int)
    requires x == 400 * q + r && 0 <= r < 400
    ensures x / 400 == q && x % 400 == r
  {
  }

  /** The general branch in terms of the cycles of four centuries since 2000. */
  lemma {:induction false} GeneralParts(y: int, cycles: int, rem: nat)
    requires cycles == (y - 2000) / 400 && rem == (y - 2000) % 400
    ensures GeneralYear(y - 1900)
         == ((y - 2000) * 31536000 + (LeapsWithin(rem).0 + 97 * cycles - One(LeapsWithin(rem).1)) * 86400 + 946771200,
             LeapsWithin(rem).1)
  {
    RoundsDown(y - 2000, 400);
  }

  /** The seconds of the cycles and of the leap days in them. */
  lemma {:induction false} GeneralSum(y: int, cycles: int, rem: int, leaps: int, a: int, b: int, c: int)
    requires y == 2000 + 400 * cycles + rem && leaps + 1 == a - b + c
    ensures (y - 2000) * 31536000 + (leaps + 97 * cycles) * 86400 + 946771200
         == 86400 * (365 * y + (500 + 100 * cycles + a) - (20 + 4 * cycles + b) + (5 + cycles + c) - DAYS_TO_1970)
  {
  }

  /** The general branch counts the days of all years before. */
  lemma {:induction false} GeneralYearIs(y: nat)
    ensures GeneralYear(y - 1900) == (86400 * (DaysBeforeYear(y) - DAYS_TO_1970), Leap(y))
  {
    var cycles, rem := (y - 2000) / 400, (y - 2000) % 400;
    GeneralParts(y, cycles, rem);
    CyclesOut(y, cycles, rem);
    LeapsWithinIs(rem);
    YearsByDivision(y);
    GeneralSum(y, cycles, rem, LeapsWithin(rem).0 - One(LeapsWithin(rem).1), (rem + 3) / 4, (rem + 99) / 100,
               (rem + 399) / 400);
  }

  ghost predicate IsInt32(x: int) { -0x8000_0000 <= x < 0x8000_0000 }

  /** The fast branch agrees with the general one, and its 32-bit sums do not overflow. */
  lemma {:induction false} FastYearIs(year: int)
    requires 2 <= year <= 138
    ensures FastYear(year) == GeneralYear(year)
    ensures IsInt32(31536000 * (year - 70)) && IsInt32(86400 * ((year - 68) / 4 - One((year - 68) % 4 == 0)))
    ensures IsInt32(FastYear(year).0)
  {
    var y: nat := year + 1900;
    GeneralYearIs(y);
    YearsByDivision(y);
    FastDivisions(y);
  }

  /** Between 1902 and 2038 every fourth year is a leap year. */
  lemma {:induction false} FastDivisions(y: nat)
    requires 1902 <= y <= 2038
    ensures Leap(y) == (y % 4 == 0) && (y - 1968) / 4 == (y + 3) / 4 - 492 - One(y % 4 != 0)
    ensures (y + 99) / 100 - (y + 399) / 400 == 15
  {
  }

  /** __month_to_secs, months from 0. */
  function MonthToSecs(month: nat, leap: bool): int
    requires month < 12
  {
    86400 * ([0, 31, 59, 90, 120, 151, 181, 212, 243, 273, 304, 334][month] + One(leap && month >= 2))
  }

  /** datetime_to_timestamp. */
  function ToTimestamp(d: DateTime): int
  {
    var m := d.month - 1;
    var down := One((m >= 12 || m < 0) && Remainder(m, 12) < 0);
    var adj := if m >= 12 || m < 0 then Quotient(m, 12) - down else 0;
    var month := if m >= 12 || m < 0 then Remainder(m, 12) + 12 * down else m;
    var (secs, leap) := YearToSecs(d.year - 1900 + adj);
    if 0 <= month < 12 then
      secs + MonthToSecs(month, leap) + 86400 * (d.day - 1) + 3600 * d.hour + 60 * d.min + d.sec
    else 0
  }

  lemma {:induction false} YearToSecsIs(y: nat)
    ensures YearToSecs(y - 1900) == (86400 * (DaysBeforeYear(y) - DAYS_TO_1970), Leap(y))
  {
    GeneralYearIs(y);
    if 2 <= y - 1900 <= 138 { FastYearIs(y - 1900); }
  }

  /** The timestamp of a date counts its seconds since 1970. */
  lemma {:induction false} ToTimestampIs(d: DateTime)
    requires ValidDate(d)
    ensures ToTimestamp(d) == Timestamp(d)
  {
    YearToSecsIs(d.year);
    MonthSeconds(d.month, Leap(d.year));
    PlainMonth(d);
  }

  lemma {:induction false} MonthSeconds(m: nat, leap: bool)
    requires 1 <= m <= 12
    ensures MonthToSecs(m - 1, leap) == 86400 * DaysBeforeMonth(m, leap)
  {
    MonthTable(leap);
  }

  /** A month from 1 to 12 needs no adjusting of the year. */
  lemma {:induction false} PlainMonth(d: DateTime)
    requires 1 <= d.month <= 12
    ensures var (secs, leap) := YearToSecs(d.year - 1900);
      ToTimestamp(d) == secs + MonthToSecs(d.month - 1, leap) + 86400 * (d.day - 1) + 3600 * d.hour + 60 * d.min + d.sec
  {
  }

  /** The constant counts the days before 1970, and the timestamps start there. */
  lemma {:induction false} EpochIsZero()
    ensures DaysBeforeYear(1970) == DAYS_TO_1970
    ensures forall d: DateTime :: d.year == 1970 && d.month == 1 && d.day == 1 && ValidDate(d) ==>
      ToTimestamp(d) == 3600 * d.hour + 60 * d.min + d.sec
  {
    YearsByDivision(1970);
    forall d: DateTime | d.year == 1970 && d.month == 1 && d.day == 1 && ValidDate(d)
      ensures ToTimestamp(d) == 3600 * d.hour + 60 * d.min + d.sec
    {
      ToTimestampIs(d);
    }
  }

  // ---------------------------------------------------------------- different dates, different timestamps

  lemma {:induction false} YearsInOrder(x: int, y: int)
    requires x <= y
    ensures JanFirst(x) + 365 * (y - x) <= JanFirst(y)
    decreases y - x
  {
    if x < y {
      LeapByDivision(y - 1);
      YearsInOrder(x, y - 1);
    }
  }

  lemma {:induction false} MonthsInOrder(m: nat, n: nat, leap: bool)
    requires 1 <= m < n <= 13
    ensures DaysBeforeMonth(m, leap) + DaysInMonth(m, leap) <= DaysBeforeMonth(n, leap)
  {
    if m + 1 < n { MonthsInOrder(m, n - 1, leap); }
  }

  lemma {:induction false} YearLength(y: int)
    ensures JanFirst(y + 1) == JanFirst(y) + 365 + One(Leap(y))
  {
    LeapByDivision(y);
  }

  /** A valid day lies within its year. */
  lemma {:induction false} InYear(d: DateTime)
    requires ValidDate(d)
    ensures JanFirst(d.year) <= DayNumber(d.year, d.month, d.day) < JanFirst(d.year + 1)
  {
    YearsByDivision(d.year);
    YearLength(d.year);
    MonthTable(Leap(d.year));
    MonthsInOrder(d.month, 13, Leap(d.year));
    MonthsFromZero(d.month, Leap(d.year));
  }

  lemma {:induction false} MonthsFromZero(m: nat, leap: bool)
    ensures DaysBeforeMonth(m, leap) >= 0
  {
    if m > 1 { MonthsFromZero(m - 1, leap); }
  }

  /** The number of a day says which day it is. */
  lemma {:induction false} SameDay(c: DateTime, d: DateTime)
    requires ValidDate(c) && ValidDate(d) && DayNumber(c.year, c.month, c.day) == DayNumber(d.year, d.month, d.day)
    ensures c.year == d.year && c.month == d.month && c.day == d.day
  {
    InYear(c);
    InYear(d);
    if c.year < d.year {
      YearsInOrder(c.year + 1, d.year);
    } else if d.year < c.year {
      YearsInOrder(d.year + 1, c.year);
    }
    if c.month < d.month {
      MonthsInOrder(c.month, d.month, Leap(c.year));
    } else if d.month < c.month {
      MonthsInOrder(d.month, c.month, Leap(c.year));
    }
  }

  lemma {:induction false} SameTimestamp(c: DateTime, d: DateTime)
    requires ValidDate(c) && ValidDate(d) && ToTimestamp(c) == ToTimestamp(d)
    ensures c == d
  {
    ToTimestampIs(c);
    ToTimestampIs(d);
    SameDay(c, d);
  }

  // ---------------------------------------------------------------- timestamps to dates

  const LEAPOCH := 951868800

  /** Days since March 2000: cycles of four centuries, centuries, cycles of four years, years that start in March,
      and the days left. */
  datatype Parts = Parts(qc: int, c: int, q: int, ry: int, rem: int)

  function PartsOf(days: int): Parts
  {
    var down := One(Remainder(days, 146097) < 0);
    var qc, r0 := Quotient(days, 146097) - down, Remainder(days, 146097) + 146097 * down;
    var c := if Quotient(r0, 36524) == 4 then 3 else Quotient(r0, 36524);
    var r1 := r0 - c * 36524;
    var q := if Quotient(r1, 1461) == 25 then 24 else Quotient(r1, 1461);
    var r2 := r1 - q * 1461;
    var ry := if Quotient(r2, 365) == 4 then 3 else Quotient(r2, 365);
    Parts(qc, c, q, ry, r2 - ry * 365)
  }

  /** The year that starts in the March of these days. */
  function MarchYear(p: Parts): int { 2000 + 400 * p.qc + 100 * p.c + 4 * p.q + p.ry }

  /** The parts are in range; a 366th day is there only before the end of a leap February. */
  lemma {:induction false} PartsInRange(days: int)
    ensures var p := PartsOf(days);
      && days == 146097 * p.qc + 36524 * p.c + 1461 * p.q + 365 * p.ry + p.rem
      && 0 <= p.c <= 3 && 0 <= p.q <= 24 && 0 <= p.ry <= 3 && 0 <= p.rem <= 365
      && (p.rem == 365 ==> p.ry == 3 && (p.q != 24 || p.c == 3))
  {
    RoundsDown(days, 146097);
    var r0 := days % 146097;
    WithinCycle(r0);
  }

  lemma {:induction false} WithinCycle(r0: nat)
    requires r0 < 146097
    ensures var c := if r0 / 36524 == 4 then 3 else r0 / 36524;
      var r1 := r0 - c * 36524;
      0 <= c <= 3 && 0 <= r1 <= 36524 && (r1 == 36524 ==> c == 3)
      && 0 <= r1 / 1461 <= 24
      && var r2 := r1 - r1 / 1461 * 1461;
         && 0 <= r2 <= 1460 && (r1 / 1461 == 24 && r2 == 1460 ==> c == 3)
         && 0 <= r2 / 365 <= 4 && (r2 / 365 == 4 ==> r2 == 1460)
  {
  }

  /** March years by division. */
  lemma {:induction false} MarchYearIs(days: int)
    ensures var p := PartsOf(days); var y := MarchYear(p);
      JanFirst(y + 1) == 730851 + days - p.rem && p.rem <= 364 + One(Leap(y + 1))
  {
    var p := PartsOf(days);
    PartsInRange(days);
    var rem := 100 * p.c + 4 * p.q + p.ry + 1;
    YearInCycle(p.qc, p.c, p.q, p.ry);
  }

  lemma {:induction false} YearInCycle(qc: int, c: int, q: int, ry: int)
    requires 0 <= c <= 3 && 0 <= q <= 24 && 0 <= ry <= 3
    ensures var y := 2000 + 400 * qc + 100 * c + 4 * q + ry;
      && JanFirst(y + 1) == 730851 + 146097 * qc + 36524 * c + 1461 * q + 365 * ry
      && (Leap(y + 1) <==> ry == 3 && (q != 24 || c == 3))
  {
    var y := 2000 + 400 * qc + 100 * c + 4 * q + ry;
    assert (y + 4) / 4 == 501 + 100 * qc + 25 * c + q && (y + 1) % 4 == (ry + 1) % 4;
    HundredInCycle(qc, c, 4 * q + ry);
    FourHundredInCycle(qc, 100 * c + 4 * q + ry);
  }

  lemma {:induction false} HundredInCycle(qc: int, c: int, r: int)
    requires 0 <= r <= 99
    ensures var y := 2000 + 400 * qc + 100 * c + r;
      (y + 100) / 100 == 21 + 4 * qc + c && ((y + 1) % 100 == 0 <==> r == 99)
  {
  }

  lemma {:induction false} FourHundredInCycle(qc: int, r: int)
    requires 0 <= r <= 399
    ensures var y := 2000 + 400 * qc + r;
      (y + 400) / 400 == 6 + qc && ((y + 1) % 400 == 0 <==> r == 399)
  {
  }

  /** The months from March on. */
  function MarchMonth(k: nat): nat
    requires k < 12
  {
    [31, 30, 31, 30, 31, 31, 30, 31, 30, 31, 31, 29][k]
  }

  ghost function MarchStart(k: nat): nat
    requires k <= 12
  {
    if k == 0 then 0 else MarchStart(k - 1) + MarchMonth(k - 1)
  }

  lemma {:induction false} MarchTable()
    ensures MarchStart(10) == 306 && MarchStart(11) == 337 && MarchStart(12) == 366
    ensures forall k :: 0 <= k < 10 ==> MarchStart(k) + 59 == DaysBeforeMonth(k + 3, false)
  {
    MonthTable(false);
    assert MarchStart(1) == 31 && MarchStart(2) == 61;
    assert MarchStart(3) == 92 && MarchStart(4) == 122;
    assert MarchStart(5) == 153 && MarchStart(6) == 184;
    assert MarchStart(7) == 214 && MarchStart(8) == 245;
    assert MarchStart(9) == 275 && MarchStart(10) == 306;
    assert MarchStart(11) == 337 && MarchStart(12) == 366;
  }

  /** The loop that finds the month; it stays within its table. */
  method FindMonth(days: nat) returns (k: nat, rem: nat)
    requires days <= 365
    ensures k < 12 && days == MarchStart(k) + rem && rem < MarchMonth(k)
  {
    MarchTable();
    k, rem := 0, days;
    while MarchMonth(k) <= rem
      invariant k < 12 && days == MarchStart(k) + rem
      decreases 12 - k
    {
      rem := rem - MarchMonth(k);
      k := k + 1;
    }
  }

  /** The year of month k of a year that starts in March. */
  function YearOf(y: int, k: nat): int { if k >= 10 then y + 1 else y }

  function MonthOf(k: nat): nat { if k >= 10 then k - 9 else k + 3 }

  /** The day in month k of the year from March on, where the next year starts at day `next`. */
  lemma {:induction false} DayInYear(y0: int, k: nat, rem: nat, next: int)
    requires k < 12 && rem < MarchMonth(k) && JanFirst(y0 + 1) == next
    requires MarchStart(k) + rem <= 364 + One(Leap(y0 + 1))
    ensures var y, m := YearOf(y0, k), MonthOf(k);
      && JanFirst(y) + DaysBeforeMonth(m, Leap(y)) + rem == next - 306 + MarchStart(k) + rem
      && 1 <= m <= 12 && rem + 1 <= DaysInMonth(m, Leap(y))
  {
    if k >= 10 {
      LateDay(y0, k, rem);
    } else {
      EarlyDay(y0, k, rem);
    }
  }

  /** The day found is the right one, and it exists. */
  lemma {:induction false} FoundDay(days: int, k: nat, rem: nat)
    requires k < 12 && rem < MarchMonth(k) && PartsOf(days).rem == MarchStart(k) + rem
    ensures var y, m := YearOf(MarchYear(PartsOf(days)), k), MonthOf(k);
      && JanFirst(y) + DaysBeforeMonth(m, Leap(y)) + rem == 730545 + days
      && 1 <= m <= 12 && rem + 1 <= DaysInMonth(m, Leap(y))
  {
    MarchYearIs(days);
    DayInYear(MarchYear(PartsOf(days)), k, rem, 730851 + days - PartsOf(days).rem);
  }

  /** March to December belong to the year in which March lies. */
  lemma {:induction false} EarlyDay(y: int, k: nat, rem: nat)
    requires k < 10 && rem < MarchMonth(k)
    ensures JanFirst(y) + DaysBeforeMonth(k + 3, Leap(y)) + rem == JanFirst(y + 1) - 306 + MarchStart(k) + rem
    ensures rem + 1 <= DaysInMonth(k + 3, Leap(y))
  {
    YearLength(y);
    MarchTable();
    MonthTable(Leap(y));
    MonthTable(false);
  }

  /** January and February belong to the next one. */
  lemma {:induction false} LateDay(y: int, k: nat, rem: nat)
    requires 10 <= k < 12 && rem < MarchMonth(k) && MarchStart(k) + rem <= 364 + One(Leap(y + 1))
    ensures DaysBeforeMonth(k - 9, Leap(y + 1)) + rem == MarchStart(k) + rem - 306
    ensures rem + 1 <= DaysInMonth(k - 9, Leap(y + 1))
  {
    MarchTable();
    MonthTable(Leap(y + 1));
  }

  /** The seconds that dates of the years 0 to 65535 have. */
  ghost predicate InRange(t: int)
  {
    -86400 * DAYS_TO_1970 <= t < 86400 * (JanFirst(65536) - DAYS_TO_1970)
  }

  lemma {:induction false} YearInRange(y: int, n: int)
    requires JanFirst(y) <= n < JanFirst(y + 1) && 0 <= n < JanFirst(65536)
    ensures 0 <= y <= 65535
  {
    assert JanFirst(0) == 0;
    if y < 0 {
      YearsInOrder(y + 1, 0);
    } else if y > 65535 {
      YearsInOrder(65536, y);
    }
  }

  /** What is behind a day number and the seconds of the day. */
  lemma {:induction false} FoundDate(t: int, k: nat, rem: nat)
    requires InRange(t) && k < 12 && rem < MarchMonth(k) && PartsOf((t - LEAPOCH) / 86400).rem == MarchStart(k) + rem
    ensures var y := YearOf(MarchYear(PartsOf((t - LEAPOCH) / 86400)), k);
      && 0 <= y <= 65535
      && var d := Clock(y, MonthOf(k), rem + 1, (t - LEAPOCH) % 86400); ValidDate(d) && Timestamp(d) == t
  {
    var days, secs := (t - LEAPOCH) / 86400, (t - LEAPOCH) % 86400;
    var y, m := YearOf(MarchYear(PartsOf(days)), k), MonthOf(k);
    FoundDay(days, k, rem);
    MonthsFromZero(m, Leap(y));
    MonthsInOrder(m, 13, Leap(y));
    MonthTable(Leap(y));
    YearLength(y);
    YearInRange(y, 730545 + days);
    YearsByDivision(y);
    SecondsOfDay(secs);
  }

  lemma {:induction false} SecondsOfDay(secs: nat)
    requires secs < 86400
    ensures secs / 3600 < 24 && 3600 * (secs / 3600) + 60 * (secs / 60 % 60) + secs % 60 == secs
  {
  }

  function Clock(year: nat, month: nat, day: nat, secs: nat): DateTime
  {
    DateTime(year, month, day, secs / 3600, secs / 60 % 60, secs % 60)
  }

  const INT_MIN := -0x8000_0000
  const INT_MAX := 0x7FFF_FFFF

  /** The answer for a timestamp: for one of the years 0 to 65535 a valid date with that timestamp, and no other valid
      date has it. */
  ghost predicate Answers(t: int, r: Option<DateTime>)
  {
    && (InRange(t) ==> r.Some? && ValidDate(r.value) && ToTimestamp(r.value) == t)
    && (forall d :: ValidDate(d) && ToTimestamp(d) == t ==> r == Some(d))
  }

  /** timestamp_to_datetime.  For the years 0 to 65535 it is the inverse of datetime_to_timestamp, both ways. */
  method ToDateTime(t: int) returns (r: Option<DateTime>)
    ensures Answers(t, r)
    ensures t < INT_MIN * 31622400 || t > INT_MAX * 31622400 ==> r == None
    ensures r.Some? && ValidDate(r.value) ==> (ToTimestamp(r.value) == t <==> InRange(t))
  {
    OnlyInRange(t);
    if t < INT_MIN * 31622400 || t > INT_MAX * 31622400 {
      NoDateBeyond(t);
      return None;
    }
    var days, remsecs := SplitDays(t - LEAPOCH);
    var y, k, rem := FindDay(days);
    if y - 2000 + 100 > INT_MAX || y - 2000 + 100 < INT_MIN {
      AnswersNone(t, k, rem);
      return None;
    }
    r := Some(Clock(y % 0x1_0000, MonthOf(k), rem + 1, remsecs));
    AnswersThis(t, k, rem);
  }

  lemma {:induction false} AnswersThis(t: int, k: nat, rem: nat)
    requires k < 12 && rem < MarchMonth(k) && PartsOf((t - LEAPOCH) / 86400).rem == MarchStart(k) + rem
    ensures var y := YearOf(MarchYear(PartsOf((t - LEAPOCH) / 86400)), k);
      Answers(t, Some(Clock(y % 0x1_0000, MonthOf(k), rem + 1, (t - LEAPOCH) % 86400)))
  {
    var y := YearOf(MarchYear(PartsOf((t - LEAPOCH) / 86400)), k);
    var year: nat := y % 0x1_0000;
    var d := Clock(year, MonthOf(k), rem + 1, (t - LEAPOCH) % 86400);
    if InRange(t) { FoundAnswer(t, k, rem, year); }
    OnlyThis(t, d);
  }

  lemma {:induction false} FoundAnswer(t: int, k: nat, rem: nat, year: nat)
    requires InRange(t) && k < 12 && rem < MarchMonth(k) && PartsOf((t - LEAPOCH) / 86400).rem == MarchStart(k) + rem
    requires year == YearOf(MarchYear(PartsOf((t - LEAPOCH) / 86400)), k) % 0x1_0000
    ensures var d := Clock(year, MonthOf(k), rem + 1, (t - LEAPOCH) % 86400); ValidDate(d) && ToTimestamp(d) == t
  {
    FoundDate(t, k, rem);
    SmallYear(YearOf(MarchYear(PartsOf((t - LEAPOCH) / 86400)), k));
    CountedDate(t, Clock(year, MonthOf(k), rem + 1, (t - LEAPOCH) % 86400));
  }

  lemma {:induction false} SmallYear(y: int)
    requires 0 <= y <= 65535
    ensures y % 0x1_0000 == y
  {
  }

  lemma {:induction false} CountedDate(t: int, d: DateTime)
    requires ValidDate(d) && Timestamp(d) == t
    ensures ToTimestamp(d) == t
  {
    ToTimestampIs(d);
  }

  lemma {:induction false} AnswersNone(t: int, k: nat, rem: nat)
    requires k < 12 && rem < MarchMonth(k) && PartsOf((t - LEAPOCH) / 86400).rem == MarchStart(k) + rem
    requires var y := YearOf(MarchYear(PartsOf((t - LEAPOCH) / 86400)), k);
      y - 2000 + 100 > INT_MAX || y - 2000 + 100 < INT_MIN
    ensures Answers(t, None)
  {
    if InRange(t) { FoundDate(t, k, rem); }
    OnlyInRange(t);
  }

  /** Days and seconds of the day, rounded down. */
  method SplitDays(secs: int) returns (days: int, remsecs: nat)
    ensures days == secs / 86400 && remsecs == secs % 86400
  {
    RoundsDown(secs, 86400);
    days := Quotient(secs, 86400);
    var rem := Remainder(secs, 86400);
    if rem < 0 {
      rem := rem + 86400;
      days := days - 1;
    }
    remsecs := rem;
  }

  /** The year, the month from March on, and the day in it. */
  method FindDay(days: int) returns (y: int, k: nat, rem: nat)
    ensures k < 12 && rem < MarchMonth(k) && PartsOf(days).rem == MarchStart(k) + rem
    ensures y == YearOf(MarchYear(PartsOf(days)), k)
  {
    PartsInRange(days);
    var p := PartsOf(days);
    k, rem := FindMonth(p.rem);
    y := YearOf(MarchYear(p), k);
  }

  /** A date of these years has a timestamp in the range. */
  lemma {:induction false} OnlyInRange(t: int)
    ensures forall d :: ValidDate(d) && ToTimestamp(d) == t ==> InRange(t)
  {
    forall d | ValidDate(d) && ToTimestamp(d) == t ensures InRange(t) {
      ToTimestampIs(d);
      InYear(d);
      YearsInOrder(0, d.year);
      YearsInOrder(d.year + 1, 65536);
    }
  }

  lemma {:induction false} OnlyThis(t: int, x: DateTime)
    requires InRange(t) ==> ValidDate(x) && ToTimestamp(x) == t
    ensures forall d :: ValidDate(d) && ToTimestamp(d) == t ==> d == x
  {
    OnlyInRange(t);
    forall d | ValidDate(d) && ToTimestamp(d) == t ensures d == x {
      SameTimestamp(d, x);
    }
  }

  lemma {:induction false} NoDateBeyond(t: int)
    requires t < INT_MIN * 31622400 || t > INT_MAX * 31622400
    ensures Answers(t, None)
  {
    OnlyInRange(t);
    assert JanFirst(65536) < 24000000;
  }
}
