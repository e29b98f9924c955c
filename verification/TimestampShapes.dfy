/** Which strings the timestamp parser accepts, which of them are spellings of a timestamp, and what the others
    read as. */
module TimestampShapes {
  import opened CivilDays
  import opened Options
  import opened Sequences
  import opened Timestamps

  // ----- what is accepted --------------------------------------------------------------------------

  predicate IsSign(c: char) {
    c == '+' || c == '-'
  }

  /** Bytes `i` to `j` are digits, except that the first may be a sign. */
  predicate Field(s: string, i: nat, j: nat)
    requires i < j <= |s|
  {
    (IsSign(s[i]) || IsDigit(s[i])) && forall k :: i < k < j ==> IsDigit(s[k])
  }

  lemma FieldParses(s: string, i: nat, j: nat)
    requires i + 1 < j <= |s|
    ensures ParseInt(s[i..j]).Some? <==> Field(s, i, j)
  {
    var f := s[i..j];
    assert f[0] == s[i];
    assert forall k :: 0 <= k < |f| ==> f[k] == s[i + k];
    assert forall k :: i < k < j ==> s[k] == f[1..][k - i - 1];
    assert AllDigits(f[1..]) <==> forall k :: i < k < j ==> IsDigit(s[k]);
    assert AllDigits(f) <==> IsDigit(f[0]) && AllDigits(f[1..]) by {
      assert f == [f[0]] + f[1..];
    }
  }

  /** What follows an optional fraction. */
  function AfterFraction(s: string): string {
    if s != [] && s[0] == '.' then PrefixFits(s[1..]); s[1 + |DigitPrefix(s[1..])|..] else s
  }

  /** A zone is read only from a sign with at least four bytes after it. */
  predicate ZoneIsRead(z: string) {
    |z| >= 5 && IsSign(z[0])
  }

  predicate Colon(z: string) {
    |z| >= 6 && z[3] == ':'
  }

  predicate AcceptsZone(z: string) {
    ZoneIsRead(z) ==> Field(z, 1, 3) && if Colon(z) then Field(z, 4, 6) else Field(z, 3, 5)
  }

  predicate AcceptsClock(c: string) {
    |c| >= 9 && Field(c, 1, 3) && Field(c, 4, 6) && Field(c, 7, 9) && AcceptsZone(AfterFraction(c[9..]))
  }

  predicate Accepts(s: string) {
    && |s| >= 10 && s[4] == '-' && s[7] == '-'
    && Field(s, 0, 4) && Field(s, 5, 7) && Field(s, 8, 10)
    && (|s| > 10 && s[10] == 'T' ==> AcceptsClock(s[10..]))
  }

  /** A fraction never fails to parse. */
  lemma FractionParses(s: string)
    ensures FractionPart(s).0.Some? && FractionPart(s).1 == AfterFraction(s)
  {
    if s != [] && s[0] == '.' {
      var frac := DigitPrefix(s[1..]);
      PrefixFits(s[1..]);
      if frac != [] { ParseMillis(frac); }
    }
  }

  lemma ZoneAccepted(z: string)
    ensures ZonePart(z).Some? <==> AcceptsZone(z)
  {
    if ZoneIsRead(z) {
      var rest := z[1..];
      assert rest[0..2] == z[1..3] && rest[2..4] == z[3..5];
      FieldParses(z, 1, 3);
      if Colon(z) {
        assert rest[3..5] == z[4..6];
        FieldParses(z, 4, 6);
      } else {
        FieldParses(z, 3, 5);
      }
    }
  }

  lemma ClockAccepted(c: string)
    requires c != [] && c[0] == 'T'
    ensures ClockPart(c).Some? <==> AcceptsClock(c)
  {
    hide ParseInt, ZonePart, AcceptsZone, FractionPart, AfterFraction, Field;
    if |c| >= 9 {
      FieldParses(c, 1, 3);
      FieldParses(c, 4, 6);
      FieldParses(c, 7, 9);
      FractionParses(c[9..]);
      ZoneAccepted(AfterFraction(c[9..]));
    }
  }

  /** The parser accepts exactly these strings. */
  lemma AcceptedIff(s: string)
    ensures IsoToMs(s).Some? <==> Accepts(s)
  {
    hide ParseInt, ClockPart, AcceptsClock, Field, DaysFromCivil;
    if |s| >= 10 {
      FieldParses(s, 0, 4);
      FieldParses(s, 5, 7);
      FieldParses(s, 8, 10);
      var tail := s[10..];
      if |s| > 10 && s[10] == 'T' {
        ClockAccepted(tail);
      } else {
        NoClock(tail);
      }
    }
  }

  lemma NoClock(tail: string)
    requires tail == [] || tail[0] != 'T'
    ensures ClockPart(tail) == Some(0)
  {
  }

  // ----- what the date fields read as --------------------------------------------------------------

  /** The first of the month that a month field reads as. */
  function MonthRead(year: int, month: int): (t: Date)
    requires month >= -9
    ensures ValidDate(t)
  {
    var fromMarch := (month + 9) % 12;
    var marchYear := if month <= 2 then year - 1 else year;
    if fromMarch < 10 then Date(marchYear, fromMarch + 3, 1) else Date(marchYear + 1, fromMarch - 9, 1)
  }

  /** The first of the month that many months after the January of the year. */
  function MonthRolled(year: int, month: int): (t: Date)
    ensures ValidDate(t)
  {
    Date(year + (month - 1) / 12, (month - 1) % 12 + 1, 1)
  }

  /** Whatever month and day a date holds, it reads as that many days after the first of one month. */
  lemma AnyMonthReads(year: int, month: int, day: int)
    requires month >= -9
    ensures DaysFromCivil(year, month, day) == DayNumber(MonthRead(year, month)) + day - 1
  {
    var t := MonthRead(year, month);
    DaysFromCivilIsDayNumber(t);
    SameMarchMonth(year, month);
    hide DaysFromCivil, MarchStart, MonthRead, DayNumber;
    DaysFromCivilClosedForm(year, month, day);
    DaysFromCivilClosedForm(t.year, t.month, 1);
  }

  lemma SameMarchMonth(year: int, month: int)
    requires month >= -9
    ensures var t := MonthRead(year, month);
      && (t.month + 9) % 12 == (month + 9) % 12
      && (if t.month <= 2 then t.year - 1 else t.year) == (if month <= 2 then year - 1 else year)
  {
  }

  /** Months roll over into the neighbouring years exactly up to month 14; a later one stays in the year from March
      to February that the field's year begins. */
  lemma RollsOverIff(year: int, month: int, day: int)
    requires month >= -9
    ensures DaysFromCivil(year, month, day) == DayNumber(MonthRolled(year, month)) + day - 1 <==> month <= 14
  {
    AnyMonthReads(year, month, day);
    var t, u := MonthRead(year, month), MonthRolled(year, month);
    MonthsCompare(year, month);
    if month > 14 { NumbersGrow(t, u); }
  }

  lemma MonthsCompare(year: int, month: int)
    requires month >= -9
    ensures month <= 14 ==> MonthRead(year, month) == MonthRolled(year, month)
    ensures month > 14 ==> Before(MonthRead(year, month), MonthRolled(year, month))
  {
  }

  /** Two bytes hold at least -9 and at most 99. */
  lemma TwoBytes(f: string)
    requires |f| == 2 && ParseInt(f).Some?
    ensures -9 <= ParseInt(f).value <= 99
  {
    assert f[1..][..0] == [] && f[..1][..0] == [];
    if IsSign(f[0]) {
      assert Value(f[1..]) <= 9;
    } else {
      assert IsDigit(f[0]) && IsDigit(f[1]);
      assert Value(f[..1]) <= 9;
    }
  }

  /** What every accepted string reads as. */
  lemma AcceptedReads(s: string)
    requires Accepts(s)
    ensures ParseInt(s[0..4]).Some? && ParseInt(s[5..7]).Some? && ParseInt(s[8..10]).Some? && ClockPart(s[10..]).Some?
    ensures ParseInt(s[5..7]).value >= -9
    ensures var first := MonthRead(ParseInt(s[0..4]).value, ParseInt(s[5..7]).value);
      IsoToMs(s) == Some((DayNumber(first) + ParseInt(s[8..10]).value - 1) * MS_PER_DAY + ClockPart(s[10..]).value)
  {
    hide ParseInt, ClockPart, Accepts, DaysFromCivil, MonthRead;
    AcceptedIff(s);
    var year, month, day := ParseInt(s[0..4]), ParseInt(s[5..7]), ParseInt(s[8..10]);
    TwoBytes(s[5..7]);
    AnyMonthReads(year.value, month.value, day.value);
  }

  /** The bytes between hours, minutes and seconds are not read. */
  lemma SeparatorsAreNotRead(s: string, c: char, d: char)
    requires |s| >= 19 && s[10] == 'T'
    ensures IsoToMs(s[13 := c][16 := d]) == IsoToMs(s)
  {
    hide ParseInt, FractionPart, ZonePart, DaysFromCivil;
    var t := s[13 := c][16 := d];
    assert t[0..4] == s[0..4] && t[5..7] == s[5..7] && t[8..10] == s[8..10];
    var x, y := s[10..], t[10..];
    assert y[1..3] == x[1..3] && y[4..6] == x[4..6] && y[7..9] == x[7..9] && y[9..] == x[9..];
  }

  // ----- what follows a clock ----------------------------------------------------------------------

  lemma ClockBytes(h: string, m: string, x: string, tail: string)
    requires |h| == 2 && |m| == 2 && |x| == 2
    ensures var c := "T" + h + ":" + m + ":" + x + tail;
      |c| >= 9 && c[0] == 'T' && c[3] == ':' && c[6] == ':'
      && c[1..3] == h && c[4..6] == m && c[7..9] == x && c[9..] == tail
  {
  }

  /** A clock without a zone, and any tail that does not prolong or begin a fraction. */
  lemma ClockThenTail(c: Clock, z: string)
    requires ValidClock(c) && c.zone.NoZone? && EndsFraction(c.fraction, z)
    ensures ClockPart(PrintClock(c) + z) ==
      match ZonePart(z) case None => None case Some(offset) => Some(ClockInstant(c) - offset)
  {
    hide ParseInt, FractionPart, ZonePart, Millis;
    var text := PrintFraction(c.fraction);
    assert PrintClock(c) + z == "T" + Print2(c.hour) + ":" + Print2(c.minute) + ":" + Print2(c.second) + (text + z) by {
      assert text + PrintZone(c.zone) == text;
      Regroup("T" + Print2(c.hour) + ":" + Print2(c.minute) + ":" + Print2(c.second), text, z);
    }
    hide PrintClock;
    ClockBytes(Print2(c.hour), Print2(c.minute), Print2(c.second), text + z);
    ParsePrint2(c.hour);
    ParsePrint2(c.minute);
    ParsePrint2(c.second);
    ParsePrintedFraction(c.fraction, z);
  }

  /** A spelling that ends in a clock without a zone, and any tail after it, read as that instant less the offset
      the tail gives. */
  lemma StampThenTail(t: Stamp, z: string)
    requires WellFormed(t) && t.clock.Some? && t.clock.value.zone.NoZone?
    requires EndsFraction(t.clock.value.fraction, z)
    ensures IsoToMs(Print(t) + z) == match ZonePart(z) case None => None case Some(offset) => Some(Instant(t) - offset)
  {
    hide IsoToMs, ClockPart, ZonePart, PrintClock, PrintDate, DayNumber, ClockInstant;
    var c := t.clock.value;
    assert Print(t) + z == PrintDate(t.date) + (PrintClock(c) + z);
    DateThenTail(t.date, PrintClock(c) + z);
    ClockThenTail(c, z);
  }

  lemma ZoneSlices(z: string)
    requires |z| >= 5
    ensures z[1..][0..2] == z[1..3] && z[1..][2..4] == z[3..5]
    ensures |z| >= 6 ==> z[1..][3..5] == z[4..6]
  {
    assert z[1..][0..2] == z[1..3];
    assert z[1..][2..4] == z[3..5];
    if |z| >= 6 { assert z[1..][3..5] == z[4..6]; }
  }

  /** A signed tail is applied exactly when at least four bytes follow the sign; a shorter one, and one without a
      sign, counts as no offset. Of a longer one only the four digits are read. */
  lemma ZoneTail(t: Stamp, z: string)
    requires WellFormed(t) && t.clock.Some? && t.clock.value.zone.NoZone?
    requires EndsFraction(t.clock.value.fraction, z)
    ensures !ZoneIsRead(z) ==> IsoToMs(Print(t) + z) == Some(Instant(t))
    ensures ZoneIsRead(z) ==>
      var h, m := ParseInt(z[1..3]), if Colon(z) then ParseInt(z[4..6]) else ParseInt(z[3..5]);
      IsoToMs(Print(t) + z) == if h.None? || m.None? then None
        else Some(Instant(t) - (if z[0] == '+' then 1 else -1) * (h.value * MS_PER_HOUR + m.value * MS_PER_MINUTE))
  {
    hide IsoToMs, Print, Instant, ParseInt;
    StampThenTail(t, z);
    if ZoneIsRead(z) { ZoneSlices(z); }
  }

  /** So an offset of hours alone reads as no offset: it gives the instant it denotes exactly when it is zero. */
  lemma HoursAloneAreDropped(t: Stamp, west: bool, hours: nat)
    requires WellFormed(t) && t.clock.Some? && t.clock.value.zone.NoZone? && hours < 24
    ensures var z := [if west then '-' else '+'] + Print2(hours);
      var meant := t.(clock := Some(t.clock.value.(zone := Offset(west, hours, 0, true))));
      && WellFormed(meant)
      && IsoToMs(Print(t) + z) == Some(Instant(t))
      && (IsoToMs(Print(t) + z) == Some(Instant(meant)) <==> hours == 0)
  {
    hide IsoToMs, Print, DayNumber, Millis;
    var z := [if west then '-' else '+'] + Print2(hours);
    assert |z| == 3;
    ZoneTail(t, z);
  }

  // ----- which accepted strings are spellings ------------------------------------------------------

  /** Two digits below a bound. */
  predicate Digits2(s: string, i: nat, bound: nat)
    requires i + 2 <= |s|
  {
    IsDigit(s[i]) && IsDigit(s[i + 1]) && Number(s, i) < bound
  }

  function Number(s: string, i: nat): int
    requires i + 2 <= |s|
  {
    (s[i] as int - '0' as int) * 10 + (s[i + 1] as int - '0' as int)
  }

  function DateOf(s: string): Date
    requires |s| >= 10
  {
    Date(Number(s, 0) * 100 + Number(s, 2), Number(s, 5), Number(s, 8))
  }

  predicate SpelledDate(s: string) {
    && |s| == 10 && s[4] == '-' && s[7] == '-'
    && Digits2(s, 0, 100) && Digits2(s, 2, 100) && Digits2(s, 5, 100) && Digits2(s, 8, 100)
    && ValidDate(DateOf(s))
  }

  predicate SpelledZone(z: string) {
    || z == "" || z == "Z" || z == "z"
    || (|z| == 6 && IsSign(z[0]) && z[3] == ':' && Digits2(z, 1, 24) && Digits2(z, 4, 60))
    || (|z| == 5 && IsSign(z[0]) && Digits2(z, 1, 24) && Digits2(z, 3, 60))
  }

  predicate SpelledClock(c: string) {
    && |c| >= 9 && c[0] == 'T' && c[3] == ':' && c[6] == ':'
    && Digits2(c, 1, 24) && Digits2(c, 4, 60) && Digits2(c, 7, 61)
    && SpelledZone(AfterFraction(c[9..]))
  }

  /** The separators, the ranges of the fields and the end of the string are those of a spelling. */
  predicate Spelled(s: string) {
    |s| >= 10 && SpelledDate(s[..10]) && (|s| > 10 ==> SpelledClock(s[10..]))
  }

  ghost predicate IsSpelling(s: string) {
    exists t :: WellFormed(t) && Print(t) == s
  }

  lemma Print2Digits(n: nat)
    requires n < 100
    ensures var p := Print2(n); |p| == 2 && IsDigit(p[0]) && IsDigit(p[1]) && Number(p, 0) == n
  {
  }

  lemma NumberPrints(s: string, i: nat)
    requires i + 2 <= |s| && Digits2(s, i, 100)
    ensures 0 <= Number(s, i) < 100 && Print2(Number(s, i)) == s[i..i + 2]
  {
    var n := Number(s, i);
    assert n / 10 == s[i] as int - '0' as int && n % 10 == s[i + 1] as int - '0' as int;
    assert s[i..i + 2] == [s[i], s[i + 1]];
  }

  lemma DatePrints(date: Date)
    requires ValidDate(date) && 0 <= date.year <= 9999
    ensures SpelledDate(PrintDate(date)) && DateOf(PrintDate(date)) == date
  {
    assert 0 < date.month < 100 && 0 < date.day < 100;
    hide ValidDate;
    Print2Digits(date.year / 100);
    Print2Digits(date.year % 100);
    Print2Digits(date.month);
    Print2Digits(date.day);
  }

  lemma DateReads(s: string)
    requires SpelledDate(s)
    ensures ValidDate(DateOf(s)) && 0 <= DateOf(s).year <= 9999 && PrintDate(DateOf(s)) == s
  {
    hide ValidDate;
    NumberPrints(s, 0);
    NumberPrints(s, 2);
    NumberPrints(s, 5);
    NumberPrints(s, 8);
    var date := DateOf(s);
    assert date.year / 100 == Number(s, 0) && date.year % 100 == Number(s, 2);
    assert s == s[0..2] + s[2..4] + "-" + s[5..7] + "-" + s[8..10];
  }

  predicate ValidZone(z: Zone) {
    z.Offset? ==> z.hours < 24 && z.minutes < 60
  }

  ghost predicate IsZone(s: string) {
    exists z :: ValidZone(z) && PrintZone(z) == s
  }

  lemma ZoneIff(s: string)
    ensures IsZone(s) <==> SpelledZone(s)
  {
    if IsZone(s) {
      var z :| ValidZone(z) && PrintZone(z) == s;
      if z.Offset? {
        Print2Digits(z.hours);
        Print2Digits(z.minutes);
      }
    }
    if SpelledZone(s) { ZoneReads(s); }
  }

  lemma ZoneReads(s: string)
    requires SpelledZone(s)
    ensures IsZone(s)
  {
    var z := NoZone;
    if s == "Z" || s == "z" {
      z := Zulu(s == "z");
    } else if |s| == 6 {
      NumberPrints(s, 1);
      NumberPrints(s, 4);
      z := Offset(s[0] == '-', Number(s, 1), Number(s, 4), true);
      assert s == [s[0]] + s[1..3] + ":" + s[4..6];
    } else if |s| == 5 {
      NumberPrints(s, 1);
      NumberPrints(s, 3);
      z := Offset(s[0] == '-', Number(s, 1), Number(s, 3), false);
      assert s == [s[0]] + s[1..3] + s[3..5];
    }
    assert ValidZone(z) && PrintZone(z) == s;
  }

  function FractionOf(s: string): Option<string> {
    if s != [] && s[0] == '.' then Some(DigitPrefix(s[1..])) else None
  }

  lemma FractionReads(s: string)
    ensures FractionOf(s).Some? ==> AllDigits(FractionOf(s).value)
    ensures PrintFraction(FractionOf(s)) + AfterFraction(s) == s
  {
    if s != [] && s[0] == '.' {
      var d := DigitPrefix(s[1..]);
      PrefixFits(s[1..]);
      assert s == "." + s[1..] && s[1..] == d + s[1..][|d|..] && s[1..][|d|..] == s[1 + |d|..];
    } else {
      assert PrintFraction(None) + s == s;
    }
  }

  ghost predicate IsClock(s: string) {
    exists c :: ValidClock(c) && PrintClock(c) == s
  }

  lemma ClockPrints(c: Clock)
    requires ValidClock(c)
    ensures SpelledClock(PrintClock(c))
  {
    hide SpelledZone, AfterFraction, FractionPart;
    var zone := PrintZone(c.zone);
    var tail := PrintFraction(c.fraction) + zone;
    ClockBytes(Print2(c.hour), Print2(c.minute), Print2(c.second), tail);
    assert EndsFraction(c.fraction, zone);
    hide PrintZone;
    FractionParses(tail);
    ParsePrintedFraction(c.fraction, zone);
    ZoneIff(zone);
    ClockDigits(PrintClock(c), c.hour, c.minute, c.second);
  }

  lemma ClockDigits(c: string, hour: nat, minute: nat, second: nat)
    requires |c| >= 9 && hour < 100 && minute < 100 && second < 100
    requires c[1..3] == Print2(hour) && c[4..6] == Print2(minute) && c[7..9] == Print2(second)
    ensures Digits2(c, 1, hour + 1) && Digits2(c, 4, minute + 1) && Digits2(c, 7, second + 1)
  {
    Print2Digits(hour);
    Print2Digits(minute);
    Print2Digits(second);
    assert c[1] == c[1..3][0] && c[2] == c[1..3][1];
    assert c[4] == c[4..6][0] && c[5] == c[4..6][1];
    assert c[7] == c[7..9][0] && c[8] == c[7..9][1];
  }

  lemma ClockReads(s: string)
    requires SpelledClock(s)
    ensures IsClock(s)
  {
    hide SpelledZone, AfterFraction, FractionOf;
    NumberPrints(s, 1);
    NumberPrints(s, 4);
    NumberPrints(s, 7);
    FractionReads(s[9..]);
    ZoneIff(AfterFraction(s[9..]));
    var z :| ValidZone(z) && PrintZone(z) == AfterFraction(s[9..]);
    var c := Clock(Number(s, 1), Number(s, 4), Number(s, 7), FractionOf(s[9..]), z);
    assert s == "T" + s[1..3] + ":" + s[4..6] + ":" + s[7..9] + s[9..];
    assert ValidClock(c) && PrintClock(c) == s;
  }

  /** The spellings of timestamps are exactly the strings that pass those tests. */
  lemma SpellingIff(s: string)
    ensures IsSpelling(s) <==> Spelled(s)
  {
    if IsSpelling(s) {
      var t :| WellFormed(t) && Print(t) == s;
      PrintedIsSpelled(t);
    }
    if Spelled(s) { SpelledIsPrinted(s); }
  }

  lemma PrintedIsSpelled(t: Stamp)
    requires WellFormed(t)
    ensures Spelled(Print(t))
  {
    hide SpelledDate, SpelledClock, PrintClock;
    var s, p := Print(t), PrintDate(t.date);
    DatePrints(t.date);
    assert |p| == 10;
    assert s[..10] == p && s[10..] == PrintOptionalClock(t.clock);
    if t.clock.Some? { ClockPrints(t.clock.value); }
  }

  lemma SpelledIsPrinted(s: string)
    requires Spelled(s)
    ensures IsSpelling(s)
  {
    hide SpelledDate, SpelledClock, PrintClock, PrintDate, ValidDate;
    var date := DateOf(s[..10]);
    DateReads(s[..10]);
    var t := Stamp(date, None);
    if |s| == 10 {
      assert s == s[..10] + "";
    } else {
      ClockReads(s[10..]);
      var c :| ValidClock(c) && PrintClock(c) == s[10..];
      t := Stamp(date, Some(c));
      assert s == s[..10] + s[10..];
    }
    assert WellFormed(t) && Print(t) == s;
  }

  /** On a spelling the parser answers with the instant it denotes. Off the spellings it answers nothing exactly
      when the string is not accepted: the documented promise fails on the accepted strings that are no spellings,
      and only there. */
  lemma AnswersExactlySpellingsIff(s: string)
    ensures forall t :: WellFormed(t) && Print(t) == s ==> IsoToMs(s) == Some(Instant(t))
    ensures (IsoToMs(s).Some? <==> IsSpelling(s)) <==> !(Accepts(s) && !Spelled(s))
  {
    hide IsoToMs, Accepts, Spelled, Print, Instant, WellFormed;
    forall t | WellFormed(t) && Print(t) == s ensures IsoToMs(s) == Some(Instant(t)) {
      ParsePrinted(t);
    }
    AcceptedIff(s);
    SpellingIff(s);
    if IsSpelling(s) {
      var t :| WellFormed(t) && Print(t) == s;
      assert IsoToMs(s) == Some(Instant(t));
    }
  }
}
