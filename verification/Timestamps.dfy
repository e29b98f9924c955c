/** Parsing of the date and date-time spellings of section 5.6 of RFC 3339 that a version-control log prints,
    and of the looser ones the parser also takes. A string here is a sequence of bytes. */
module Timestamps {
  import opened CivilDays
  import opened Options

  predicate IsDigit(c: char) {
    '0' <= c <= '9'
  }

  predicate AllDigits(s: string) {
    forall i :: 0 <= i < |s| ==> IsDigit(s[i])
  }

  function Value(s: string): nat
    requires AllDigits(s)
  {
    if s == [] then 0 else Value(s[..|s| - 1]) * 10 + (s[|s| - 1] as int - '0' as int)
  }

  /** Integer parsing: an optional sign and at least one digit. */
  function ParseInt(s: string): Option<int> {
    if s == [] then None
    else if s[0] == '+' || s[0] == '-' then
      if |s| == 1 || !AllDigits(s[1..]) then None
      else
        var v: int := Value(s[1..]);
        Some(if s[0] == '-' then -v else v)
    else if AllDigits(s) then Some(Value(s))
    else None
  }

  function DigitPrefix(s: string): string {
    if s == [] || !IsDigit(s[0]) then [] else [s[0]] + DigitPrefix(s[1..])
  }

  function Padded(s: string): string {
    if |s| >= 3 then s[..3] else s + seq(3 - |s|, i => '0')
  }

  const MS_PER_DAY := 86_400_000
  const MS_PER_HOUR := 3_600_000
  const MS_PER_MINUTE := 60_000

  /** Milliseconds of a fraction, and what follows the fraction. */
  function FractionPart(s: string): (Option<int>, string) {
    if s != [] && s[0] == '.' then
      var frac := DigitPrefix(s[1..]);
      PrefixFits(s[1..]);
      (if frac == [] then Some(0) else ParseInt(Padded(frac)), s[1 + |frac|..])
    else (Some(0), s)
  }

  lemma {:induction false} PrefixFits(s: string)
    ensures DigitPrefix(s) <= s && AllDigits(DigitPrefix(s))
  {
    if s == [] || !IsDigit(s[0]) {
    } else {
      PrefixFits(s[1..]);
      assert s == [s[0]] + s[1..];
    }
  }

  /** Local time minus UTC. */
  function ZonePart(s: string): Option<int> {
    if s == [] || (s[0] != '+' && s[0] != '-') then Some(0)
    else
      var sign := if s[0] == '+' then 1 else -1;
      var rest := s[1..];
      if |rest| >= 5 && rest[2] == ':' then ZoneFields(sign, ParseInt(rest[0..2]), ParseInt(rest[3..5]))
      else if |rest| >= 4 then ZoneFields(sign, ParseInt(rest[0..2]), ParseInt(rest[2..4]))
      else Some(0)
  }

  function ZoneFields(sign: int, hours: Option<int>, minutes: Option<int>): Option<int> {
    if hours.None? || minutes.None? then None
    else Some(sign * (hours.value * MS_PER_HOUR + minutes.value * MS_PER_MINUTE))
  }

  /** UTC milliseconds into the day, from what follows the date. */
  function ClockPart(s: string): Option<int> {
    if s == [] || s[0] != 'T' then Some(0)
    else if |s| < 9 then None
    else
      var hour, minute, second := ParseInt(s[1..3]), ParseInt(s[4..6]), ParseInt(s[7..9]);
      var (millis, tail) := FractionPart(s[9..]);
      var offset := ZonePart(tail);
      if hour.None? || minute.None? || second.None? || millis.None? || offset.None? then None
      else
        Some(
          hour.value * MS_PER_HOUR + minute.value * MS_PER_MINUTE + second.value * 1000 + millis.value - offset.value)
  }

  function IsoToMs(s: string): Option<int> {
    if |s| < 10 || s[4] != '-' || s[7] != '-' then None
    else
      var year, month, day := ParseInt(s[0..4]), ParseInt(s[5..7]), ParseInt(s[8..10]);
      var clock := ClockPart(s[10..]);
      if year.None? || month.None? || day.None? || clock.None? then None
      else Some(DaysFromCivil(year.value, month.value, day.value) * MS_PER_DAY + clock.value)
  }

  /** The fraction at `idx0`, and the position after it. */
  method ParseFraction(s: string, idx0: nat) returns (millis: Option<int>, idx: nat)
    requires idx0 <= |s|
    ensures idx <= |s| && FractionPart(s[idx0..]) == (millis, s[idx..])
  {
    millis, idx := Some(0), idx0;
    if |s| > idx && s[idx] == '.' {
      var fracStart := idx + 1;
      var frac := DigitPrefix(s[fracStart..]);
      PrefixFits(s[fracStart..]);
      assert s[idx0..][1..] == s[fracStart..];
      idx := fracStart + |frac|;
      assert s[idx0..][1 + |frac|..] == s[idx..];
      if frac != [] {
        var padded := if |frac| > 3 then frac[..3] else frac;
        while |padded| < 3
          invariant |padded| <= 3 && Padded(padded) == Padded(frac)
        {
          assert Padded(padded + ['0']) == Padded(padded);
          padded := padded + ['0'];
        }
        assert padded == Padded(padded);
        millis := ParseInt(padded);
      }
    }
  }

  method ParseZone(s: string, idx: nat) returns (offsetMs: Option<int>)
    requires idx <= |s|
    ensures offsetMs == ZonePart(s[idx..])
  {
    offsetMs := Some(0);
    if |s| > idx && (s[idx] == '+' || s[idx] == '-') {
      var sign := if s[idx] == '+' then 1 else -1;
      var rest := s[idx + 1..];
      assert s[idx..][1..] == rest;
      var oh, om := Some(0), Some(0);
      if |rest| >= 5 && rest[2] == ':' {
        oh, om := ParseInt(rest[0..2]), ParseInt(rest[3..5]);
      } else if |rest| >= 4 {
        oh, om := ParseInt(rest[0..2]), ParseInt(rest[2..4]);
      }
      offsetMs := ZoneFields(sign, oh, om);
    }
  }

  lemma SliceOfTail(s: string, k: nat, i: nat, j: nat)
    requires i <= j && k + j <= |s|
    ensures s[k..][i..j] == s[k + i..k + j]
  {
  }

  /** Time of day and zone, from position 10 on. */
  method ParseClock(s: string) returns (ms: Option<int>)
    requires |s| >= 10
    ensures ms == ClockPart(s[10..])
  {
    hide ParseInt, FractionPart, ZonePart;
    var idx := 10;
    ghost var rest := s[10..];
    if !(|s| > idx && s[idx] == 'T') {
      return Some(0);
    }
    if |s| < idx + 9 {
      return None;
    }
    var hour, minute := ParseInt(s[idx + 1..idx + 3]), ParseInt(s[idx + 4..idx + 6]);
    var second := ParseInt(s[idx + 7..idx + 9]);
    SliceOfTail(s, idx, 1, 3);
    SliceOfTail(s, idx, 4, 6);
    SliceOfTail(s, idx, 7, 9);
    idx := idx + 9;
    assert rest[9..] == s[idx..];
    var millis;
    millis, idx := ParseFraction(s, idx);
    var offsetMs := ParseZone(s, idx);
    if hour.None? || minute.None? || second.None? || millis.None? || offsetMs.None? {
      return None;
    }
    ms := Some(
      hour.value * MS_PER_HOUR + minute.value * MS_PER_MINUTE + second.value * 1000 + millis.value - offsetMs.value);
  }

  /** The parser. */
  method ParseIsoToMs(s: string) returns (r: Option<int>)
    ensures r == IsoToMs(s)
  {
    if |s| < 10 {
      return None;
    }
    if s[4] != '-' || s[7] != '-' {
      return None;
    }
    var year, month, day := ParseInt(s[0..4]), ParseInt(s[5..7]), ParseInt(s[8..10]);
    if year.None? || month.None? || day.None? {
      return None;
    }
    var clock := ParseClock(s);
    if clock.None? {
      return None;
    }
    var days := DaysFromCivil(year.value, month.value, day.value);
    return Some(days * MS_PER_DAY + clock.value);
  }

  // ----- printed timestamps ----------------------------------------------------------------------

  datatype Zone = NoZone | Zulu(lower: bool) | Offset(west: bool, hours: nat, minutes: nat, colon: bool)

  datatype Clock = Clock(hour: nat, minute: nat, second: nat, fraction: Option<string>, zone: Zone)

  datatype Stamp = Stamp(date: Date, clock: Option<Clock>)

  ghost predicate ValidClock(c: Clock) {
    && c.hour < 24 && c.minute < 60 && c.second <= 60
    && (c.fraction.Some? ==> AllDigits(c.fraction.value))
    && (c.zone.Offset? ==> c.zone.hours < 24 && c.zone.minutes < 60)
  }

  ghost predicate WellFormed(t: Stamp) {
    ValidDate(t.date) && 0 <= t.date.year <= 9999 && (t.clock.Some? ==> ValidClock(t.clock.value))
  }

  function Digit(n: nat): char
    requires n < 10
  {
    ('0' as int + n) as char
  }

  function Print2(n: nat): string
    requires n < 100
  {
    [Digit(n / 10), Digit(n % 10)]
  }

  function PrintZone(z: Zone): string
    requires z.Offset? ==> z.hours < 100 && z.minutes < 100
  {
    match z
    case NoZone => ""
    case Zulu(lower) => if lower then "z" else "Z"
    case Offset(west, h, m, colon) => [if west then '-' else '+'] + Print2(h) + (if colon then ":" else "") + Print2(m)
  }

  function PrintFraction(f: Option<string>): string {
    match f case None => "" case Some(d) => "." + d
  }

  function PrintClock(c: Clock): string
    requires c.hour < 100 && c.minute < 100 && c.second < 100
    requires c.zone.Offset? ==> c.zone.hours < 100 && c.zone.minutes < 100
  {
    "T" + Print2(c.hour) + ":" + Print2(c.minute) + ":" + Print2(c.second)
    + (PrintFraction(c.fraction) + PrintZone(c.zone))
  }

  function PrintDate(date: Date): string
    requires ValidDate(date) && 0 <= date.year <= 9999
  {
    Print2(date.year / 100) + Print2(date.year % 100) + "-" + Print2(date.month) + "-" + Print2(date.day)
  }

  function PrintOptionalClock(c: Option<Clock>): string
    requires c.Some? ==> c.value.hour < 100 && c.value.minute < 100 && c.value.second < 100
    requires c.Some? && c.value.zone.Offset? ==> c.value.zone.hours < 100 && c.value.zone.minutes < 100
  {
    match c case None => "" case Some(clock) => PrintClock(clock)
  }

  function Print(t: Stamp): string
    requires WellFormed(t)
  {
    PrintDate(t.date) + PrintOptionalClock(t.clock)
  }

  function Pow10(n: nat): (p: nat)
    ensures p > 0
  {
    if n == 0 then 1 else 10 * Pow10(n - 1)
  }

  /** Whole milliseconds in the fraction `0.f`, rounded down. */
  function Millis(f: string): int
    requires AllDigits(f)
  {
    Value(f) * 1000 / Pow10(|f|)
  }

  function ZoneOffset(z: Zone): int {
    match z
    case NoZone => 0
    case Zulu(_) => 0
    case Offset(west, h, m, _) => (if west then -1 else 1) * (h * MS_PER_HOUR + m * MS_PER_MINUTE)
  }

  /** UTC milliseconds into the day of a printed clock. */
  function ClockInstant(c: Clock): int
    requires c.fraction.Some? ==> AllDigits(c.fraction.value)
  {
    c.hour * MS_PER_HOUR + c.minute * MS_PER_MINUTE + c.second * 1000
    + (match c.fraction case None => 0 case Some(f) => Millis(f)) - ZoneOffset(c.zone)
  }

  /** The instant a timestamp denotes: local time since the epoch less the offset from UTC. */
  ghost function Instant(t: Stamp): int
    requires WellFormed(t)
  {
    DayNumber(t.date) * MS_PER_DAY + match t.clock case None => 0 case Some(c) => ClockInstant(c)
  }

  lemma ValueSnoc(s: string, c: char)
    requires AllDigits(s) && IsDigit(c)
    ensures AllDigits(s + [c]) && Value(s + [c]) == Value(s) * 10 + (c as int - '0' as int)
  {
    assert (s + [c])[..|s|] == s;
  }

  /** A string that begins with a digit has no sign. */
  lemma ParseDigits(s: string)
    requires s != [] && AllDigits(s)
    ensures ParseInt(s) == Some(Value(s))
  {
    hide Value;
    assert IsDigit(s[0]);
  }

  lemma ParsePrint2(n: nat)
    requires n < 100
    ensures AllDigits(Print2(n)) && Value(Print2(n)) == n && ParseInt(Print2(n)) == Some(n)
  {
    hide ParseInt, AllDigits;
    var a, b := Digit(n / 10), Digit(n % 10);
    NoDigits();
    ValueSnoc([], a);
    ValueSnoc([a], b);
    assert [] + [a] == [a] && [a] + [b] == Print2(n);
    hide Value;
    ParseDigits(Print2(n));
  }

  lemma NoDigits()
    ensures AllDigits([]) && Value([]) == 0
  {
  }

  lemma ParsePrint4(n: nat)
    requires n <= 9999
    ensures ParseInt(Print2(n / 100) + Print2(n % 100)) == Some(n)
  {
    var front, a, b := Print2(n / 100), Digit(n % 100 / 10), Digit(n % 10);
    ParsePrint2(n / 100);
    ValueSnoc(front, a);
    ValueSnoc(front + [a], b);
    assert n % 100 % 10 == n % 10;
    assert front + [a] + [b] == front + Print2(n % 100);
    hide Value, ParseInt;
    ParseDigits(front + [a] + [b]);
  }

  lemma {:induction false} PrefixOfDigits(f: string, tail: string)
    requires AllDigits(f) && (tail == [] || !IsDigit(tail[0]))
    ensures DigitPrefix(f + tail) == f
  {
    if f == [] {
      assert f + tail == tail;
    } else {
      assert (f + tail)[1..] == f[1..] + tail;
      PrefixOfDigits(f[1..], tail);
    }
  }

  // ----- fractions -------------------------------------------------------------------------------

  lemma Scale(a: nat, p: nat, v: nat)
    ensures (a * p + v) * 10 == a * (10 * p) + v * 10
  {
  }

  lemma {:induction false} ValueSplits(f: string, k: nat)
    requires AllDigits(f) && k <= |f|
    ensures AllDigits(f[..k]) && AllDigits(f[k..])
    ensures Value(f) == Value(f[..k]) * Pow10(|f| - k) + Value(f[k..])
    decreases |f|
  {
    if k == |f| {
      assert f[..k] == f && f[k..] == [];
    } else {
      var n := |f| - 1;
      ValueSplits(f[..n], k);
      assert f[..n][..k] == f[..k] && f[k..][..n - k] == f[..n][k..];
      Scale(Value(f[..k]), Pow10(n - k), Value(f[..n][k..]));
    }
  }

  lemma {:induction false} ValueBelowPow(f: string)
    requires AllDigits(f)
    ensures Value(f) < Pow10(|f|)
  {
    if f == [] {
    } else {
      ValueBelowPow(f[..|f| - 1]);
    }
  }

  lemma MultipleIsFar(k: int, d: int)
    requires d > 0
    ensures k >= 1 ==> k * d >= d
    ensures k <= -1 ==> k * d <= -d
  {
  }

  lemma DivisionIs(x: int, d: int, q: int, r: int)
    requires d > 0 && x == q * d + r && 0 <= r < d
    ensures x / d == q
  {
    var k := q - x / d;
    assert k * d == q * d - (x / d) * d;
    assert x == (x / d) * d + x % d;
    MultipleIsFar(k, d);
  }

  lemma {:induction false} ZerosScale(f: string, k: nat)
    requires AllDigits(f)
    ensures AllDigits(f + seq(k, i => '0')) && Value(f + seq(k, i => '0')) == Value(f) * Pow10(k)
  {
    var s := f + seq(k, i => '0');
    if k == 0 {
      assert s == f;
    } else {
      assert s[..|s| - 1] == f + seq(k - 1, i => '0');
      ZerosScale(f, k - 1);
      Scale(Value(f), Pow10(k - 1), 0);
    }
  }

  lemma LongFraction(a: nat, p: nat, r: nat)
    requires r < p
    ensures (a * p + r) * 1000 / (1000 * p) == a
  {
    assert (a * p + r) * 1000 == a * (1000 * p) + r * 1000;
    DivisionIs((a * p + r) * 1000, 1000 * p, a, r * 1000);
  }

  lemma ShortFraction(v: nat, p: nat, q: nat)
    requires p * q == 1000
    ensures p > 0 && v * 1000 / p == v * q
  {
    FactorOut(v, p, q);
    DivisionIs(v * 1000, p, v * q, 0);
  }

  lemma PowByThree(n: nat)
    requires n >= 3
    ensures Pow10(n) == 1000 * Pow10(n - 3)
  {
    assert Pow10(n) == 10 * Pow10(n - 1) && Pow10(n - 1) == 10 * Pow10(n - 2);
  }

  lemma PowersToThree(n: nat)
    requires n <= 3
    ensures Pow10(n) * Pow10(3 - n) == 1000
  {
    assert Pow10(0) == 1 && Pow10(1) == 10 && Pow10(2) == 100 && Pow10(3) == 1000;
    assert n == 0 || n == 1 || n == 2 || n == 3;
  }

  lemma TruncatedIsMillis(f: string)
    requires AllDigits(f) && |f| >= 3
    ensures AllDigits(f[..3]) && Value(f[..3]) == Millis(f)
  {
    ValueSplits(f, 3);
    ValueBelowPow(f[3..]);
    LongFraction(Value(f[..3]), Pow10(|f| - 3), Value(f[3..]));
    PowByThree(|f|);
  }

  /** Truncating or padding to three digits is rounding the fraction down to milliseconds. */
  lemma PaddedIsMillis(f: string)
    requires AllDigits(f)
    ensures AllDigits(Padded(f)) && Value(Padded(f)) == Millis(f)
  {
    if |f| >= 3 {
      TruncatedIsMillis(f);
    } else {
      ZerosScale(f, 3 - |f|);
      PowersToThree(|f|);
      ShortFraction(Value(f), Pow10(|f|), Pow10(3 - |f|));
    }
  }

  lemma FactorOut(v: nat, p: nat, q: nat)
    ensures v * (p * q) == (v * q) * p
  {
  }

  // ----- parsing what was printed ----------------------------------------------------------------

  lemma ParsePrintedZone(z: Zone)
    requires z.Offset? ==> z.hours < 100 && z.minutes < 100
    ensures ZonePart(PrintZone(z)) == Some(ZoneOffset(z))
    ensures PrintZone(z) == [] || (PrintZone(z)[0] != '.' && !IsDigit(PrintZone(z)[0]))
  {
    if z.Offset? {
      ParsePrint2(z.hours);
      ParsePrint2(z.minutes);
      var rest := PrintZone(z)[1..];
      if z.colon {
        assert rest == Print2(z.hours) + ":" + Print2(z.minutes);
        assert rest[0..2] == Print2(z.hours) && rest[3..5] == Print2(z.minutes);
      } else {
        assert rest == Print2(z.hours) + Print2(z.minutes);
        assert rest[2] != ':';
        assert rest[0..2] == Print2(z.hours) && rest[2..4] == Print2(z.minutes);
      }
    }
  }

  lemma ParseMillis(d: string)
    requires AllDigits(d)
    ensures ParseInt(Padded(d)) == Some(Millis(d))
  {
    PaddedIsMillis(d);
    ParseDigits(Padded(d));
  }

  lemma FractionOfDigits(d: string, tail: string)
    requires AllDigits(d) && (tail == [] || !IsDigit(tail[0]))
    ensures FractionPart("." + d + tail) == (if d == [] then Some(0) else ParseInt(Padded(d)), tail)
  {
    var s := "." + d + tail;
    assert s[1..] == d + tail && s[1 + |d|..] == tail;
    PrefixOfDigits(d, tail);
  }

  /** The tail does not prolong the fraction, nor begin one where there is none. */
  predicate EndsFraction(f: Option<string>, tail: string) {
    tail == [] || if f.None? then tail[0] != '.' else !IsDigit(tail[0])
  }

  lemma ParsePrintedFraction(f: Option<string>, tail: string)
    requires f.Some? ==> AllDigits(f.value)
    requires EndsFraction(f, tail)
    ensures FractionPart(PrintFraction(f) + tail) == (Some(match f case None => 0 case Some(d) => Millis(d)), tail)
  {
    match f
    case None =>
      assert PrintFraction(f) + tail == tail;
    case Some(d) =>
      FractionOfDigits(d, tail);
      if d != [] { ParseMillis(d); }
  }

  lemma ParsePrintedClock(c: Clock)
    requires c.hour < 100 && c.minute < 100 && c.second < 100
    requires c.fraction.Some? ==> AllDigits(c.fraction.value)
    requires c.zone.Offset? ==> c.zone.hours < 100 && c.zone.minutes < 100
    ensures ClockPart(PrintClock(c)) == Some(ClockInstant(c))
  {
    var s := PrintClock(c);
    var tail := PrintFraction(c.fraction) + PrintZone(c.zone);
    assert s == "T" + Print2(c.hour) + ":" + Print2(c.minute) + ":" + Print2(c.second) + tail;
    assert s[1..3] == Print2(c.hour) && s[4..6] == Print2(c.minute) && s[7..9] == Print2(c.second) && s[9..] == tail;
    ParsePrint2(c.hour);
    ParsePrint2(c.minute);
    ParsePrint2(c.second);
    ParsePrintedZone(c.zone);
    ParsePrintedFraction(c.fraction, PrintZone(c.zone));
  }

  lemma DateSlices(y: string, m: string, d: string, tail: string)
    requires |y| == 4 && |m| == 2 && |d| == 2
    ensures var s := y + "-" + m + "-" + d + tail;
      |s| >= 10 && s[4] == '-' && s[7] == '-' && s[0..4] == y && s[5..7] == m && s[8..10] == d && s[10..] == tail
  {
  }

  /** A date and any tail. */
  lemma DateThenTail(date: Date, tail: string)
    requires ValidDate(date) && 0 <= date.year <= 9999
    ensures IsoToMs(PrintDate(date) + tail) ==
      match ClockPart(tail) case None => None case Some(ms) => Some(DayNumber(date) * MS_PER_DAY + ms)
  {
    hide ParseInt, ClockPart, DaysFromCivil, DayNumber;
    var y, m, d := Print2(date.year / 100) + Print2(date.year % 100), Print2(date.month), Print2(date.day);
    DateSlices(y, m, d, tail);
    ParsePrint4(date.year);
    ParsePrint2(date.month);
    ParsePrint2(date.day);
    DaysFromCivilIsDayNumber(date);
  }

  /** What follows the date is ignored unless it begins with T, so a date with any other tail reads as midnight. */
  lemma OtherTailsAreIgnored(date: Date, tail: string)
    requires ValidDate(date) && 0 <= date.year <= 9999 && (tail == [] || tail[0] != 'T')
    ensures IsoToMs(PrintDate(date) + tail) == Some(DayNumber(date) * MS_PER_DAY)
  {
    hide IsoToMs;
    DateThenTail(date, tail);
  }

  /** Parsing a printed timestamp yields the instant it denotes. */
  lemma ParsePrinted(t: Stamp)
    requires WellFormed(t)
    ensures IsoToMs(Print(t)) == Some(Instant(t))
  {
    hide IsoToMs, ClockPart, PrintClock, PrintDate, ClockInstant, DayNumber;
    match t.clock
    case None =>
      OtherTailsAreIgnored(t.date, "");
    case Some(c) =>
      ParsePrintedClock(c);
      DateThenTail(t.date, PrintClock(c));
  }

  /** Two spellings parse equal exactly when they denote one instant. */
  lemma SpellingsOfOneInstant(a: Stamp, b: Stamp)
    requires WellFormed(a) && WellFormed(b)
    ensures IsoToMs(Print(a)) == IsoToMs(Print(b)) <==> Instant(a) == Instant(b)
  {
    ParsePrinted(a);
    ParsePrinted(b);
  }
}
