/** Day numbers of the proleptic Gregorian calendar. */
module CivilDays {
  /** Division and remainder that truncate toward zero. */
  function TruncDiv(a: int, b: int): int
    requires b > 0
  {
    if a >= 0 then a / b else -((-a) / b)
  }

  function TruncMod(a: int, b: int): int
    requires b > 0
  {
    a - TruncDiv(a, b) * b
  }

  /** Days since 1970-01-01. */
  function DaysFromCivil(year: int, m: int, d: int): int {
    var y := if m <= 2 then year - 1 else year;
    var era := TruncDiv(if y >= 0 then y else y - 399, 400);
    var yoe := y - era * 400;
    var mp := TruncMod(m + 9, 12);
    var doy := TruncDiv(153 * mp + 2, 5) + d - 1;
    var doe := yoe * 365 + TruncDiv(yoe, 4) - TruncDiv(yoe, 100) + doy;
    era * 146_097 + doe - 719_468
  }

  // ----- the calendar itself ---------------------------------------------------------------------

  predicate IsLeap(y: int) {
    y % 4 == 0 && (y % 100 != 0 || y % 400 == 0)
  }

  function DaysInYear(y: int): int {
    if IsLeap(y) then 366 else 365
  }

  function DaysInMonth(y: int, m: int): int
    requires 1 <= m <= 12
  {
    if m == 2 then (if IsLeap(y) then 29 else 28)
    else if m == 4 || m == 6 || m == 9 || m == 11 then 30 else 31
  }

  datatype Date = Date(year: int, month: int, day: int)

  predicate ValidDate(t: Date) {
    1 <= t.month <= 12 && 1 <= t.day <= DaysInMonth(t.year, t.month)
  }

  const EPOCH := Date(1970, 1, 1)

  function NextDay(t: Date): Date
    requires ValidDate(t)
  {
    if t.day < DaysInMonth(t.year, t.month) then t.(day := t.day + 1)
    else if t.month < 12 then Date(t.year, t.month + 1, 1)
    else Date(t.year + 1, 1, 1)
  }

  predicate Before(a: Date, b: Date) {
    a.year < b.year || (a.year == b.year && (a.month < b.month || (a.month == b.month && a.day < b.day)))
  }

  /** Days from the epoch to the first of January, counted a year at a time in either direction. */
  function YearStart(y: int): int
    decreases if y >= 1970 then y - 1970 else 1970 - y
  {
    if y == 1970 then 0
    else if y > 1970 then YearStart(y - 1) + DaysInYear(y - 1)
    else YearStart(y + 1) - DaysInYear(y)
  }

  /** Days from the first of January to the first of the month, counted a month at a time. */
  function MonthStart(y: int, m: int): int
    requires 1 <= m <= 12
    decreases m
  {
    if m == 1 then 0 else MonthStart(y, m - 1) + DaysInMonth(y, m - 1)
  }

  /** The day's number on a calendar counted out day by day from the epoch. */
  function DayNumber(t: Date): int
    requires ValidDate(t)
  {
    YearStart(t.year) + MonthStart(t.year, t.month) + t.day - 1
  }

  lemma NextDayCounts(t: Date)
    requires ValidDate(t)
    ensures ValidDate(NextDay(t)) && DayNumber(NextDay(t)) == DayNumber(t) + 1
  {
    if t.day == DaysInMonth(t.year, t.month) && t.month == 12 {
      MonthTable(t.year, 12);
    }
  }

  // ----- the closed form -------------------------------------------------------------------------

  /** Leap days and ordinary days up to the end of February of year `y`, in one formula. */
  function MarchStart(y: int): int {
    365 * y + y / 4 - y / 100 + y / 400
  }

  /** A quotient steps up exactly at the multiples. */
  lemma QuotientSteps(y: int, k: int)
    requires k == 4 || k == 100 || k == 400
    ensures y / k == (y - 1) / k + if y % k == 0 then 1 else 0
  {
  }

  lemma MarchStartSteps(y: int)
    ensures MarchStart(y) == MarchStart(y - 1) + DaysInYear(y)
  {
    QuotientSteps(y, 4);
    QuotientSteps(y, 100);
    QuotientSteps(y, 400);
    YearLength(y);
    hide DaysInYear;
  }

  lemma YearLength(y: int)
    ensures DaysInYear(y)
         == 365 + (if y % 4 == 0 then 1 else 0) - (if y % 100 == 0 then 1 else 0) + (if y % 400 == 0 then 1 else 0)
  {
    Centuries(y);
  }

  lemma Centuries(y: int)
    ensures y % 400 == 0 ==> y % 100 == 0
    ensures y % 100 == 0 ==> y % 4 == 0
  {
  }

  lemma {:induction false} YearStartClosedForm(y: int)
    ensures YearStart(y) == MarchStart(y - 1) + 306 - 719_468
    decreases if y >= 1970 then y - 1970 else 1970 - y
  {
    if y > 1970 {
      YearStartClosedForm(y - 1);
      MarchStartSteps(y - 1);
    } else if y < 1970 {
      YearStartClosedForm(y + 1);
      MarchStartSteps(y);
    }
  }

  lemma MonthTable(y: int, m: int)
    requires 1 <= m <= 12
    ensures var leap := if IsLeap(y) then 1 else 0;
      MonthStart(y, m) == [0, 31, 59 + leap, 90 + leap, 120 + leap, 151 + leap, 181 + leap, 212 + leap,
                           243 + leap, 273 + leap, 304 + leap, 334 + leap][m - 1]
    decreases m
  {
    if m > 1 {
      MonthTable(y, m - 1);
    }
  }

  /** The months counted from March, as one formula. */
  lemma MarchMonths(y: int, m: int)
    requires 1 <= m <= 12
    ensures var leap := if IsLeap(y) then 1 else 0;
      (153 * ((m + 9) % 12) + 2) / 5 == MonthStart(y, m) + if m <= 2 then 306 else -59 - leap
  {
    MonthTable(y, m);
    assert (m + 9) % 12 == if m <= 2 then m + 9 else m - 3;
  }

  lemma {:induction false} MonthsGrow(y: int, m: int, n: int)
    requires 1 <= m < n <= 12
    ensures MonthStart(y, m) + DaysInMonth(y, m) <= MonthStart(y, n)
    decreases n
  {
    if m == n - 1 {
    } else {
      MonthsGrow(y, m, n - 1);
    }
  }

  lemma MonthsFillTheYear(y: int, m: int)
    requires 1 <= m <= 12
    ensures 0 <= MonthStart(y, m) && MonthStart(y, m) + DaysInMonth(y, m) <= DaysInYear(y)
  {
    MonthTable(y, m);
  }

  /** Rounding the era's dividend down by 399 makes truncating division round down. */
  lemma EraIsFloor(y: int)
    ensures TruncDiv(if y >= 0 then y else y - 399, 400) == y / 400
  {
  }

  lemma EraDecomposes(y: int)
    ensures var era, yoe := y / 400, y % 400;
      era * 146_097 + yoe * 365 + yoe / 4 - yoe / 100 == MarchStart(y)
  {
    var era, yoe := y / 400, y % 400;
    assert y == 400 * era + yoe;
    assert y / 4 == 100 * era + yoe / 4;
    assert y / 100 == 4 * era + yoe / 100;
  }

  lemma DaysFromCivilClosedForm(year: int, m: int, d: int)
    requires m >= -9
    ensures var y := if m <= 2 then year - 1 else year;
      DaysFromCivil(year, m, d) == MarchStart(y) + (153 * ((m + 9) % 12) + 2) / 5 + d - 1 - 719_468
  {
    var y := if m <= 2 then year - 1 else year;
    EraIsFloor(y);
    EraDecomposes(y);
  }

  /** The arithmetic agrees with the calendar, for every year, negative ones included. */
  lemma DaysFromCivilIsDayNumber(t: Date)
    requires ValidDate(t)
    ensures DaysFromCivil(t.year, t.month, t.day) == DayNumber(t)
  {
    hide DaysFromCivil, MarchStart, MonthStart, YearStart;
    DaysFromCivilClosedForm(t.year, t.month, t.day);
    YearStartClosedForm(t.year);
    MarchMonths(t.year, t.month);
    MarchStartSteps(t.year);
  }

  /** It is the one counter that is 0 on 1970-01-01 and grows by one from each day to the next. */
  lemma DaysFromCivilCountsDays(t: Date)
    requires ValidDate(t)
    ensures DaysFromCivil(EPOCH.year, EPOCH.month, EPOCH.day) == 0
    ensures var n := NextDay(t);
      ValidDate(n) && DaysFromCivil(n.year, n.month, n.day) == DaysFromCivil(t.year, t.month, t.day) + 1
  {
    DaysFromCivilIsDayNumber(EPOCH);
    DaysFromCivilIsDayNumber(t);
    NextDayCounts(t);
    DaysFromCivilIsDayNumber(NextDay(t));
  }

  lemma {:induction false} YearsGrow(a: int, b: int)
    requires a < b
    ensures YearStart(a) + DaysInYear(a) <= YearStart(b)
    decreases b - a
  {
    YearStartClosedForm(a);
    YearStartClosedForm(a + 1);
    MarchStartSteps(a);
    if a + 1 == b {
    } else {
      YearsGrow(a + 1, b);
    }
  }

  /** Later dates have larger numbers, and different dates different ones. */
  lemma DayNumbersAreStrictlyOrdered(a: Date, b: Date)
    requires ValidDate(a) && ValidDate(b)
    ensures Before(a, b) <==> DaysFromCivil(a.year, a.month, a.day) < DaysFromCivil(b.year, b.month, b.day)
    ensures DaysFromCivil(a.year, a.month, a.day) == DaysFromCivil(b.year, b.month, b.day) ==> a == b
  {
    DaysFromCivilIsDayNumber(a);
    DaysFromCivilIsDayNumber(b);
    if Before(a, b) { NumbersGrow(a, b); }
    if Before(b, a) { NumbersGrow(b, a); }
  }

  lemma NumbersGrow(a: Date, b: Date)
    requires ValidDate(a) && ValidDate(b) && Before(a, b)
    ensures DayNumber(a) < DayNumber(b)
  {
    if a.year < b.year {
      YearsGrow(a.year, b.year);
      MonthsFillTheYear(a.year, a.month);
      MonthsFillTheYear(b.year, b.month);
    } else if a.month < b.month {
      MonthsGrow(a.year, a.month, b.month);
    }
  }
}
