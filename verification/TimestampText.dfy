/** The text of FIX dates, times and timestamps. */
module TimestampText {
  import opened Wrappers
  import opened Bytes
  import opened Dates
  import opened Division
  import opened UtcTimestamps

  const COLON: byte := 58
  const NANOS_PER_SECOND: nat := 1_000_000_000

  /** The value of `digits`, if they are all digits. */
  function Number(digits: bytes): (r: Option<nat>) {
    if AllDigits(digits) then Some(DigitsValue(digits)) else None
  }

  function ParseDate(text: bytes): (r: Option<Date>)
    ensures r.Some? ==> Valid(r.value)
  {
    if |text| != 8 then None
    else
      match (Number(text[0..4]), Number(text[4..6]), Number(text[6..8]))
      case (Some(year), Some(month), Some(day)) => NewDate(year, month, day)
      case _ => None
  }

  /** Nanoseconds in one unit of the last fraction digit. */
  function UnitNanos(precision: TimePrecision): (unit: nat)
    ensures unit > 0
  {
    Pow10(9 - precision)
  }

  /** A time of day as written. The fraction is its digits' number. */
  datatype Clock = Clock(hour: nat, minute: nat, second: nat, fraction: nat)

  /** Hours, minutes and seconds within range, 60 seconds being a leap second. */
  predicate IsClock(c: Clock, precision: TimePrecision) {
    c.hour <= 23 && c.minute <= 59 && c.second <= 60 && c.fraction < Pow10(precision)
  }

  function Nanos(c: Clock, precision: TimePrecision): nat {
    (c.hour * 3_600 + c.minute * 60 + c.second) * NANOS_PER_SECOND + c.fraction * UnitNanos(precision)
  }

  function ParseFraction(text: bytes): (r: Option<(TimePrecision, nat)>) {
    if text == [] then Some((0, 0))
    else if text[0] != DOT || !(2 <= |text| <= 10) then None
    else
      match Number(text[1..])
      case Some(fraction) => Some((|text| - 1, fraction))
      case None => None
  }

  function ReadClock(text: bytes): (r: Option<(Clock, TimePrecision)>) {
    if |text| < 8 || text[2] != COLON || text[5] != COLON then None
    else
      match (Number(text[0..2]), Number(text[3..5]), Number(text[6..8]), ParseFraction(text[8..]))
      case (Some(hour), Some(minute), Some(second), Some((precision, fraction))) =>
        if hour > 23 || minute > 59 || second > 60 then None else Some((Clock(hour, minute, second, fraction), precision))
      case _ => None
  }

  /** Reads a time of day. A leap second counts as the first second of the next minute. */
  function ParseTime(text: bytes): (r: Option<Time>) {
    match ReadClock(text)
    case None => None
    case Some((clock, precision)) =>
      ReadClockIsClock(text);
      NanosWithinDay(clock, precision);
      NewTime(Nanos(clock, precision), precision)
  }

  function ParseTimestamp(text: bytes): (r: Option<UtcTimestamp>) {
    if |text| < 9 then None
    else
      match ParseDate(text[..8])
      case None => None
      case Some(date) =>
        if text[8] != MINUS then None
        else
          match ParseTime(text[9..])
          case None => None
          case Some(time) => Instant(date, time)
  }

  /** The last `k` decimal digits of `n`, zeros in front included. */
  function Padded(n: nat, k: nat): (s: bytes)
    ensures |s| == k && AllDigits(s)
  {
    if k == 0 then [] else Padded(n / 10, k - 1) + [ZERO + n % 10]
  }

  lemma {:induction false} PaddedValue(n: nat, k: nat)
    requires n < Pow10(k)
    ensures DigitsValue(Padded(n, k)) == n
  {
    if k > 0 {
      PaddedValue(n / 10, k - 1);
      assert Padded(n, k)[..k - 1] == Padded(n / 10, k - 1);
    }
  }

  lemma {:induction false} DigitsArePadded(s: bytes)
    requires AllDigits(s)
    ensures Padded(DigitsValue(s), |s|) == s
  {
    if s != [] {
      var before, last := s[..|s| - 1], s[|s| - 1] - ZERO;
      DigitsArePadded(before);
      assert DigitsValue(s) / 10 == DigitsValue(before) && DigitsValue(s) % 10 == last;
    }
  }

  /** `number` reads back exactly what is written padded. */
  lemma NumberIsPadded(s: bytes, n: nat)
    requires n < Pow10(|s|)
    ensures Number(s) == Some(n) <==> s == Padded(n, |s|)
  {
    PaddedValue(n, |s|);
    if AllDigits(s) { DigitsArePadded(s); }
  }

  lemma NumberIsBelow(s: bytes)
    requires Number(s).Some?
    ensures Number(s).value < Pow10(|s|)
  {
    DigitsValueBound(s);
  }

  function DateText(d: Date): (s: bytes)
    ensures |s| == 8
  {
    Padded(d.year, 4) + Padded(d.month, 2) + Padded(d.day, 2)
  }

  function FractionText(fraction: nat, precision: TimePrecision): (s: bytes) {
    if precision == 0 then [] else [DOT] + Padded(fraction, precision)
  }

  function ClockText(c: Clock, precision: TimePrecision): (s: bytes)
    ensures |s| >= 8
  {
    Padded(c.hour, 2) + [COLON] + Padded(c.minute, 2) + [COLON] + Padded(c.second, 2) + FractionText(c.fraction, precision)
  }

  lemma UnitsInASecond(precision: TimePrecision)
    ensures Pow10(precision) * UnitNanos(precision) == NANOS_PER_SECOND
  {
    Pow10Adds(precision, 9 - precision);
    assert Pow10(9) == NANOS_PER_SECOND;
  }

  lemma FractionWithinSecond(fraction: nat, precision: TimePrecision)
    requires fraction < Pow10(precision)
    ensures fraction * UnitNanos(precision) + UnitNanos(precision) <= NANOS_PER_SECOND
  {
    hide UnitNanos, Pow10;
    UnitsInASecond(precision);
    OneMore(fraction, UnitNanos(precision));
    Scales(fraction + 1, Pow10(precision), UnitNanos(precision));
  }

  lemma NanosWithinDay(c: Clock, precision: TimePrecision)
    requires IsClock(c, precision)
    ensures Nanos(c, precision) < LONGEST_DAY
    ensures c.second < 60 ==> Nanos(c, precision) < NANOS_PER_DAY
  {
    hide UnitNanos;
    FractionWithinSecond(c.fraction, precision);
  }

  lemma ParsedFraction(text: bytes)
    requires ParseFraction(text).Some?
    ensures var (precision, fraction) := ParseFraction(text).value;
            fraction < Pow10(precision) && text == FractionText(fraction, precision)
  {
    if text != [] {
      NumberIsBelow(text[1..]);
      NumberIsPadded(text[1..], Number(text[1..]).value);
      assert text == [text[0]] + text[1..];
    }
  }

  lemma FractionTextParses(fraction: nat, precision: TimePrecision)
    requires fraction < Pow10(precision)
    ensures ParseFraction(FractionText(fraction, precision)) == Some((precision, fraction))
  {
    if precision > 0 {
      var text := FractionText(fraction, precision);
      assert text[1..] == Padded(fraction, precision);
      NumberIsPadded(text[1..], fraction);
    }
  }

  /** What is read as a time of day is the text of one. */
  lemma ReadClockIsClock(text: bytes)
    requires ReadClock(text).Some?
    ensures var (c, precision) := ReadClock(text).value; IsClock(c, precision) && text == ClockText(c, precision)
  {
    hide Number, ParseFraction, FractionText, Padded;
    var (c, precision) := ReadClock(text).value;
    TwoDigits(text[0..2]);
    TwoDigits(text[3..5]);
    TwoDigits(text[6..8]);
    ParsedFraction(text[8..]);
    InClockParts(text);
  }

  lemma TwoDigits(s: bytes)
    requires |s| == 2 && Number(s).Some?
    ensures s == Padded(Number(s).value, 2)
  {
    NumberIsBelow(s);
    NumberIsPadded(s, Number(s).value);
  }

  lemma InClockParts(text: bytes)
    requires |text| >= 8 && text[2] == COLON && text[5] == COLON
    ensures text == text[0..2] + [COLON] + text[3..5] + [COLON] + text[6..8] + text[8..]
  {
  }

  /** And the text of every time of day is read as it. */
  lemma ClockTextReads(c: Clock, precision: TimePrecision)
    requires IsClock(c, precision)
    ensures ReadClock(ClockText(c, precision)) == Some((c, precision))
  {
    hide Number, ParseFraction, FractionText, Padded;
    var text := ClockText(c, precision);
    var hour, minute, second, fraction := Padded(c.hour, 2), Padded(c.minute, 2), Padded(c.second, 2), FractionText(c.fraction, precision);
    ClockPartsOf(hour, minute, second, fraction);
    BelowHundred(c.hour);
    BelowHundred(c.minute);
    BelowHundred(c.second);
    FractionTextParses(c.fraction, precision);
  }

  lemma BelowHundred(n: nat)
    requires n < 100
    ensures Number(Padded(n, 2)) == Some(n)
  {
    assert Pow10(2) == 100;
    NumberIsPadded(Padded(n, 2), n);
  }

  lemma ClockPartsOf(hour: bytes, minute: bytes, second: bytes, fraction: bytes)
    requires |hour| == 2 && |minute| == 2 && |second| == 2
    ensures var text := hour + [COLON] + minute + [COLON] + second + fraction;
            && |text| >= 8 && text[2] == COLON && text[5] == COLON
            && text[0..2] == hour && text[3..5] == minute && text[6..8] == second && text[8..] == fraction
  {
  }

  /** A date is read from exactly its text. */
  lemma ParseDateExactly(text: bytes, d: Date)
    requires Valid(d)
    ensures ParseDate(text) == Some(d) <==> text == DateText(d)
  {
    hide Number, Padded, Valid;
    if text == DateText(d) {
      DateTextParts(Padded(d.year, 4), Padded(d.month, 2), Padded(d.day, 2));
      DatePartsAre(d);
    }
    if ParseDate(text) == Some(d) {
      NumberIsBelow(text[0..4]);
      NumberIsPadded(text[0..4], d.year);
      TwoDigits(text[4..6]);
      TwoDigits(text[6..8]);
      assert text == text[0..4] + text[4..6] + text[6..8];
    }
  }

  lemma DateTextParts(year: bytes, month: bytes, day: bytes)
    requires |year| == 4 && |month| == 2 && |day| == 2
    ensures var text := year + month + day; |text| == 8 && text[0..4] == year && text[4..6] == month && text[6..8] == day
  {
  }

  lemma DatePartsAre(d: Date)
    requires Valid(d)
    ensures Number(Padded(d.year, 4)) == Some(d.year) && Number(Padded(d.month, 2)) == Some(d.month)
    ensures Number(Padded(d.day, 2)) == Some(d.day) && NewDate(d.year, d.month, d.day) == Some(d)
  {
    assert Pow10(4) == 10_000;
    NumberIsPadded(Padded(d.year, 4), d.year);
    BelowHundred(d.month);
    BelowHundred(d.day);
  }

  /** The time of day that is `nanos` after midnight, rounded down to `precision`. */
  function ClockAt(nanos: nat, precision: TimePrecision): Clock {
    var seconds := nanos / NANOS_PER_SECOND;
    QuotientIsNatural(nanos % NANOS_PER_SECOND, UnitNanos(precision));
    Clock(seconds / 3_600, seconds / 60 % 60, seconds % 60, nanos % NANOS_PER_SECOND / UnitNanos(precision))
  }

  /** Every time of day within a day has a text without a leap second, rounded down to the precision. */
  lemma ClockAtRoundsDown(nanos: nat, precision: TimePrecision)
    requires nanos < NANOS_PER_DAY
    ensures var c := ClockAt(nanos, precision);
            IsClock(c, precision) && c.second < 60 && Nanos(c, precision) == nanos - nanos % UnitNanos(precision)
  {
    hide UnitNanos;
    var seconds, rest, unit := nanos / NANOS_PER_SECOND, nanos % NANOS_PER_SECOND, UnitNanos(precision);
    UnitsInASecond(precision);
    RoundsDown(rest, unit, Pow10(precision));
    RestOfRest(nanos, Pow10(precision), unit);
    ClockSeconds(seconds);
  }

  lemma ClockSeconds(seconds: nat)
    requires seconds < 86_400
    ensures seconds / 3_600 <= 23 && seconds / 60 % 60 <= 59 && seconds % 60 <= 59
    ensures seconds / 3_600 * 3_600 + seconds / 60 % 60 * 60 + seconds % 60 == seconds
  {
  }

  /** A time of day other than a leap second is the one its nanoseconds give. */
  lemma ClockAtOwnNanos(c: Clock, precision: TimePrecision)
    requires IsClock(c, precision) && c.second < 60
    ensures ClockAt(Nanos(c, precision), precision) == c
  {
    hide UnitNanos;
    var seconds, unit := c.hour * 3_600 + c.minute * 60 + c.second, UnitNanos(precision);
    FractionWithinSecond(c.fraction, precision);
    QuotientAndRest(seconds, c.fraction * unit, NANOS_PER_SECOND);
    QuotientAndRest(c.fraction, 0, unit);
    SecondsOnClock(c.hour, c.minute, c.second);
  }

  lemma SecondsOnClock(hour: nat, minute: nat, second: nat)
    requires minute < 60 && second < 60
    ensures var seconds := hour * 3_600 + minute * 60 + second;
            seconds / 3_600 == hour && seconds / 60 % 60 == minute && seconds % 60 == second
  {
    QuotientAndRest(hour, minute * 60 + second, 3_600);
    QuotientAndRest(hour * 60 + minute, second, 60);
    QuotientAndRest(hour, minute, 60);
  }

  /** The times are the nanoseconds a clock can show, its leap second included. */
  lemma TimesAreClocks(nanos: i64, precision: TimePrecision)
    ensures NewTime(nanos, precision) == Some(Time(nanos, precision)) || NewTime(nanos, precision) == None
    ensures NewTime(nanos, precision).Some? <==> exists c :: IsClock(c, 9) && Nanos(c, 9) == nanos
  {
    hide Nanos, IsClock;
    forall c | IsClock(c, 9) ensures 0 <= Nanos(c, 9) < LONGEST_DAY { NanosWithinDay(c, 9); }
    if 0 <= nanos < NANOS_PER_DAY {
      ClockAtRoundsDown(nanos, 9);
      WholeNanos(nanos);
    } else if NANOS_PER_DAY <= nanos < LONGEST_DAY {
      LeapSecond(nanos - NANOS_PER_DAY);
    }
  }

  lemma WholeNanos(nanos: nat)
    ensures nanos % UnitNanos(9) == 0
  {
    assert UnitNanos(9) == 1;
  }

  lemma LeapSecond(nanos: nat)
    requires nanos < NANOS_PER_SECOND
    ensures IsClock(Clock(23, 59, 60, nanos), 9) && Nanos(Clock(23, 59, 60, nanos), 9) == NANOS_PER_DAY + nanos
  {
    assert UnitNanos(9) == 1;
    assert Pow10(9) == 1_000_000_000;
  }

  lemma NanosAreUnits(c: Clock, precision: TimePrecision)
    requires IsClock(c, precision)
    ensures Nanos(c, precision) % UnitNanos(precision) == 0
  {
    hide UnitNanos;
    var seconds, unit := c.hour * 3_600 + c.minute * 60 + c.second, UnitNanos(precision);
    UnitsInASecond(precision);
    Regroup(seconds, Pow10(precision), unit);
    WholeUnits(seconds * Pow10(precision), c.fraction * unit, unit);
    QuotientAndRest(c.fraction, 0, unit);
  }

  lemma DaysAreUnits(nanos: int, precision: TimePrecision)
    ensures nanos % NANOS_PER_DAY % UnitNanos(precision) == nanos % UnitNanos(precision)
  {
    hide UnitNanos;
    UnitsInASecond(precision);
    assert NANOS_PER_DAY == 86_400 * NANOS_PER_SECOND;
    Regroup(86_400, Pow10(precision), UnitNanos(precision));
    RestOfRest(nanos, 86_400 * Pow10(precision), UnitNanos(precision));
  }

  /** A timestamp's text: its date, and its time of day to its precision. */
  function TimestampText(s: UtcTimestamp): (text: bytes) {
    PartsRecombine(s);
    DateText(DateOf(s).value) + [MINUS] + ClockText(ClockAt(TimeOf(s).value.nanosSinceMidnight, s.precision), s.precision)
  }

  lemma TimestampTextParts(date: bytes, time: bytes)
    requires |date| == 8
    ensures var text := date + [MINUS] + time; |text| >= 9 && text[..8] == date && text[8] == MINUS && text[9..] == time
  {
  }

  /** Every date and time of day as written, leap seconds too, reads as its instant. */
  lemma WrittenReads(date: Date, c: Clock, precision: TimePrecision)
    requires Valid(date) && IsClock(c, precision)
    ensures Nanos(c, precision) < LONGEST_DAY
    ensures ParseTimestamp(DateText(date) + [MINUS] + ClockText(c, precision)) == Instant(date, Time(Nanos(c, precision), precision))
  {
    hide DateText, ClockText, DaysSinceEpoch, ParseDate, ReadClock, Valid, Nanos;
    TimestampTextParts(DateText(date), ClockText(c, precision));
    ParseDateExactly(DateText(date), date);
    ClockTextReads(c, precision);
    NanosWithinDay(c, precision);
  }

  /** Reading a timestamp's text gives the timestamp rounded down to its precision, or nothing if that is out of range. */
  lemma TimestampReadsBack(s: UtcTimestamp)
    ensures var rounded := s.unixNanos - s.unixNanos % UnitNanos(s.precision);
            ParseTimestamp(TimestampText(s)) == if rounded < I64_MIN then None else Some(UtcTimestamp(rounded, s.precision))
  {
    hide UnitNanos, DateText, ClockText, ClockAt, DaysSinceEpoch, FromDaysSinceEpoch, ParseDate, ReadClock, Valid, Nanos;
    PartsRecombine(s);
    var date, nanos := DateOf(s).value, s.unixNanos % NANOS_PER_DAY;
    var clock := ClockAt(nanos, s.precision);
    ClockAtRoundsDown(nanos, s.precision);
    WrittenReads(date, clock, s.precision);
    DaysAreUnits(s.unixNanos, s.precision);
  }

  /** The digits of a leap second. */
  const SIXTY: bytes := [54, 48]

  lemma SecondWritten(date: bytes, c: Clock, precision: TimePrecision)
    requires |date| == 8 && c.second <= 60
    ensures var text := date + [MINUS] + ClockText(c, precision);
            |text| >= 17 && (text[15..17] == SIXTY <==> c.second == 60)
  {
    hide FractionText, Padded, Number;
    var text := date + [MINUS] + ClockText(c, precision);
    assert text[15..17] == Padded(c.second, 2) by {
      ClockPartsOf(Padded(c.hour, 2), Padded(c.minute, 2), Padded(c.second, 2), FractionText(c.fraction, precision));
    }
    BelowHundred(c.second);
    BelowHundred(60);
    SixtyWritten();
  }

  lemma SixtyWritten()
    ensures Padded(60, 2) == SIXTY
  {
    assert Padded(6, 1) == Padded(0, 0) + [54];
  }

  lemma InstantIsUnits(days: int, nanos: nat, precision: TimePrecision)
    requires nanos % UnitNanos(precision) == 0
    ensures (days * NANOS_PER_DAY + nanos) % UnitNanos(precision) == 0
  {
    hide UnitNanos;
    var unit := UnitNanos(precision);
    UnitsInASecond(precision);
    Regroup(86_400, Pow10(precision), unit);
    Regroup(days, 86_400 * Pow10(precision), unit);
    WholeUnits(days * (86_400 * Pow10(precision)), nanos, unit);
  }

  /**
   * A text that reads as a timestamp is that timestamp's text, at a whole number of units of its
   * precision, unless it writes a leap second, which no timestamp's text does.
   */
  lemma ParsedIsItsText(text: bytes)
    requires ParseTimestamp(text).Some?
    ensures var s := ParseTimestamp(text).value;
            && s.unixNanos % UnitNanos(s.precision) == 0
            && (text == TimestampText(s) <==> text[15..17] != SIXTY)
  {
    hide UnitNanos, DateText, ClockText, ClockAt, DaysSinceEpoch, FromDaysSinceEpoch, ParseDate, ReadClock, Valid, Nanos;
    var s := ParseTimestamp(text).value;
    var date := ParseDate(text[..8]).value;
    var (clock, precision) := ReadClock(text[9..]).value;
    ReadClockIsClock(text[9..]);
    NanosWithinDay(clock, precision);
    var time := ParseTime(text[9..]).value;
    ParseDateExactly(text[..8], date);
    assert text == text[..8] + [MINUS] + text[9..];
    InstantHasParts(date, time);
    NanosAreUnits(clock, precision);
    InstantIsUnits(DaysSinceEpoch(date), Nanos(clock, precision), precision);
    SecondWritten(text[..8], clock, precision);
    PartsRecombine(s);
    if clock.second < 60 {
      ClockAtOwnNanos(clock, precision);
    } else {
      var nanos := TimeOf(s).value.nanosSinceMidnight;
      ClockAtRoundsDown(nanos, precision);
      SecondWritten(DateText(DateOf(s).value), ClockAt(nanos, precision), precision);
    }
  }
}
