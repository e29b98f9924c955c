/** Timestamps in numbers: the units, the calendar and the direction of offsets. */
module TimestampUnits {
  import opened CivilDays
  import opened Options
  import opened Timestamps

  /** The lengths of the months. */
  lemma MonthLengths(year: int, month: int, day: int)
    ensures ValidDate(Date(year, month, day)) <==>
      || (month in {1, 3, 5, 7, 8, 10, 12} && 1 <= day <= 31)
      || (month in {4, 6, 9, 11} && 1 <= day <= 30)
      || (month == 2 && 1 <= day <= 28)
      || (month == 2 && day == 29 && year % 4 == 0 && (year % 100 != 0 || year % 400 == 0))
  {
  }

  /** What a printed timestamp parses to, in milliseconds. */
  lemma PrintedInMilliseconds(t: Stamp, c: Clock, west: bool, h: nat, m: nat, colon: bool)
    requires WellFormed(t) && t.clock == Some(c) && c.fraction == None && c.zone == Offset(west, h, m, colon)
    ensures IsoToMs(Print(t)) == Some(
      86_400_000 * DayNumber(t.date) + 3_600_000 * c.hour + 60_000 * c.minute + 1_000 * c.second
      + if west then 3_600_000 * h + 60_000 * m else -3_600_000 * h - 60_000 * m)
  {
    hide IsoToMs, DayNumber, Print, ClockInstant;
    ParsePrinted(t);
    ClockInMilliseconds(c, west, h, m, colon);
  }

  lemma ClockInMilliseconds(c: Clock, west: bool, h: nat, m: nat, colon: bool)
    requires c.fraction == None && c.zone == Offset(west, h, m, colon)
    ensures ClockInstant(c) ==
      3_600_000 * c.hour + 60_000 * c.minute + 1_000 * c.second
      + if west then 3_600_000 * h + 60_000 * m else -3_600_000 * h - 60_000 * m
  {
    if west { } else { }
  }

  /** One hour later on the clock, and one hour more to the east: the same instant, at midnight, too. */
  function HourEast(t: Stamp): Stamp
    requires t.clock.Some? && t.clock.value.zone.Offset? && ValidDate(t.date)
  {
    var c := t.clock.value;
    var later := c.(hour := if c.hour < 23 then c.hour + 1 else 0, zone := c.zone.(hours := c.zone.hours + 1));
    Stamp(if c.hour < 23 then t.date else NextDay(t.date), Some(later))
  }

  lemma HourEastReadsAlike(t: Stamp)
    requires WellFormed(t) && t.clock.Some? && t.clock.value.zone.Offset?
    requires !t.clock.value.zone.west && t.clock.value.zone.hours < 23
    requires t.clock.value.hour == 23 ==> 0 <= NextDay(t.date).year <= 9999
    ensures WellFormed(HourEast(t)) && IsoToMs(Print(HourEast(t))) == IsoToMs(Print(t))
  {
    NextDayCounts(t.date);
    hide DayNumber, IsoToMs, Print, Millis, NextDay;
    SpellingsOfOneInstant(t, HourEast(t));
  }

  // ----- some timestamps and their milliseconds ----------------------------------------------------

  lemma Spelled(t: Stamp, s: string, n: int)
    requires WellFormed(t) && Print(t) == s && Instant(t) == n
    ensures IsoToMs(s) == Some(n)
  {
    hide IsoToMs, Print, Instant;
    ParsePrinted(t);
  }

  lemma DayOf(date: Date, n: int)
    requires ValidDate(date) && DaysFromCivil(date.year, date.month, date.day) == n
    ensures DayNumber(date) == n
  {
    hide DayNumber, DaysFromCivil;
    DaysFromCivilIsDayNumber(date);
  }

  lemma TwoDigits()
    ensures Print2(0) == "00" && Print2(1) == "01" && Print2(3) == "03" && Print2(9) == "09"
    ensures Print2(19) == "19" && Print2(20) == "20" && Print2(30) == "30" && Print2(70) == "70"
  {
  }

  lemma PrintedParts(date: Date, c: Clock, year: string, month: string, day: string, clock: string)
    requires ValidDate(date) && 0 <= date.year <= 9999 && ValidClock(c)
    requires Print2(date.year / 100) + Print2(date.year % 100) == year
    requires Print2(date.month) == month && Print2(date.day) == day && PrintClock(c) == clock
    ensures Print(Stamp(date, Some(c))) == year + "-" + month + "-" + day + clock
  {
    hide Print2, PrintClock;
  }

  lemma ClockParts(c: Clock, hour: string, minute: string, second: string, sign: string, h: string, m: string)
    requires ValidClock(c) && c.fraction == None && c.zone.Offset? && c.zone.colon
    requires Print2(c.hour) == hour && Print2(c.minute) == minute && Print2(c.second) == second
    requires sign == (if c.zone.west then "-" else "+") && Print2(c.zone.hours) == h && Print2(c.zone.minutes) == m
    ensures PrintClock(c) == "T" + hour + ":" + minute + ":" + second + ("" + (sign + h + ":" + m))
  {
    hide Print2;
  }

  /** Nine in the morning nine hours east of Greenwich is midnight in Greenwich. */
  lemma EastIsEarlier()
    ensures IsoToMs("1970-01-01T09:00:00+09:00") == Some(0)
  {
    hide IsoToMs, Print, Instant;
    var t := Stamp(Date(1970, 1, 1), Some(Clock(9, 0, 0, None, Offset(false, 9, 0, true))));
    PrintedEast(t);
    EastInstant(t);
    Spelled(t, "1970-01-01T09:00:00+09:00", 0);
  }

  lemma PrintedEast(t: Stamp)
    requires t == Stamp(Date(1970, 1, 1), Some(Clock(9, 0, 0, None, Offset(false, 9, 0, true))))
    ensures WellFormed(t) && Print(t) == "1970-01-01T09:00:00+09:00"
  {
    hide Print2, Print, PrintClock;
    TwoDigits();
    ClockParts(t.clock.value, "09", "00", "00", "+", "09", "00");
    assert "T" + "09" + ":" + "00" + ":" + "00" + ("" + ("+" + "09" + ":" + "00")) == "T09:00:00+09:00";
    assert "19" + "70" == "1970";
    PrintedParts(t.date, t.clock.value, "1970", "01", "01", "T09:00:00+09:00");
    assert "1970" + "-" + "01" + "-" + "01" + "T09:00:00+09:00" == "1970-01-01T09:00:00+09:00";
  }

  lemma EastInstant(t: Stamp)
    requires t == Stamp(Date(1970, 1, 1), Some(Clock(9, 0, 0, None, Offset(false, 9, 0, true))))
    ensures WellFormed(t) && Instant(t) == 0
  {
    DayOf(t.date, 0);
    hide DayNumber;
  }

  /** A second, a minute and an hour after the leap day of a year divisible by 400. */
  lemma AfterLeapDay()
    ensures IsoToMs("2000-03-01T01:01:01-00:00") == Some(951_872_461_000)
  {
    hide IsoToMs, Print, Instant;
    var t := Stamp(Date(2000, 3, 1), Some(Clock(1, 1, 1, None, Offset(true, 0, 0, true))));
    PrintedMarch(t);
    MarchInstant(t);
    Spelled(t, "2000-03-01T01:01:01-00:00", 951_872_461_000);
  }

  lemma PrintedMarch(t: Stamp)
    requires t == Stamp(Date(2000, 3, 1), Some(Clock(1, 1, 1, None, Offset(true, 0, 0, true))))
    ensures WellFormed(t) && Print(t) == "2000-03-01T01:01:01-00:00"
  {
    hide Print2, Print, PrintClock;
    TwoDigits();
    ClockParts(t.clock.value, "01", "01", "01", "-", "00", "00");
    assert "T" + "01" + ":" + "01" + ":" + "01" + ("" + ("-" + "00" + ":" + "00")) == "T01:01:01-00:00";
    assert "20" + "00" == "2000";
    PrintedParts(t.date, t.clock.value, "2000", "03", "01", "T01:01:01-00:00");
    assert "2000" + "-" + "03" + "-" + "01" + "T01:01:01-00:00" == "2000-03-01T01:01:01-00:00";
  }

  lemma MarchInstant(t: Stamp)
    requires t == Stamp(Date(2000, 3, 1), Some(Clock(1, 1, 1, None, Offset(true, 0, 0, true))))
    ensures WellFormed(t) && Instant(t) == 951_872_461_000
  {
    DayOf(t.date, 11_017);
    hide DayNumber;
  }
}
