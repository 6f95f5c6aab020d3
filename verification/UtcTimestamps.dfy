/** FIX timestamps as nanoseconds since the Unix epoch, and their date and time of day. */
module UtcTimestamps {
  import opened Wrappers
  import opened Bytes
  import opened Dates
  import opened Division

  const NANOS_PER_DAY: int := 86_400_000_000_000
  /** A day with a leap second has 86,401 seconds. */
  const LONGEST_DAY: int := 86_401_000_000_000

  /** How finely a time is written, as its count of fraction digits. */
  type TimePrecision = n: int | 0 <= n <= 9

  datatype Time = Time(nanosSinceMidnight: i64, precision: TimePrecision)

  datatype UtcTimestamp = UtcTimestamp(unixNanos: i64, precision: TimePrecision)

  function NewTime(nanosSinceMidnight: i64, precision: TimePrecision): (r: Option<Time>) {
    if 0 <= nanosSinceMidnight < LONGEST_DAY then Some(Time(nanosSinceMidnight, precision)) else None
  }

  predicate ValidTime(t: Time) {
    0 <= t.nanosSinceMidnight < LONGEST_DAY
  }

  /** The date in UTC, which always exists. */
  function DateOf(s: UtcTimestamp): (r: Option<Date>) {
    FromDaysSinceEpoch(s.unixNanos / NANOS_PER_DAY)
  }

  /** The time of day in UTC, which always exists. */
  function TimeOf(s: UtcTimestamp): (r: Option<Time>) {
    NewTime(s.unixNanos % NANOS_PER_DAY, s.precision)
  }

  /** The instant of a date and time of day, if it fits. */
  function Instant(date: Date, time: Time): (r: Option<UtcTimestamp>)
    requires Valid(date)
  {
    var nanos := DaysSinceEpoch(date) * NANOS_PER_DAY + time.nanosSinceMidnight;
    if I64_MIN <= nanos <= I64_MAX then Some(UtcTimestamp(nanos, time.precision)) else None
  }

  /**
   * Every timestamp has a date, in the years 1677 to 2262, and a time of day, and they are those
   * of its instant.
   */
  lemma PartsRecombine(s: UtcTimestamp)
    ensures DateOf(s).Some? && TimeOf(s).Some?
    ensures 1677 <= DateOf(s).value.year <= 2262
    ensures Instant(DateOf(s).value, TimeOf(s).value) == Some(s)
  {
    hide FromDaysSinceEpoch, DaysSinceEpoch, Before, Valid;
    var days := s.unixNanos / NANOS_PER_DAY;
    assert -106_752 <= days <= 106_751;
    DaysUndoesFromDays(days);
    YearIsWithin(DateOf(s).value);
  }

  lemma YearIsWithin(d: Date)
    requires Valid(d) && -106_752 <= DaysSinceEpoch(d) <= 106_751
    ensures 1677 <= d.year <= 2262
  {
    hide DaysSinceEpoch;
    DaysFromMarch(Date(1677, 1, 1));
    DaysFromMarch(Date(2262, 12, 31));
    DaysKeepOrder(d, Date(1677, 1, 1));
    DaysKeepOrder(Date(2262, 12, 31), d);
  }

  /**
   * An instant gives its date and time of day back, but for a leap second, which is the first
   * second of the next day.
   */
  lemma InstantHasParts(date: Date, time: Time)
    requires Valid(date) && ValidTime(time) && Instant(date, time).Some?
    ensures var s := Instant(date, time).value;
            if time.nanosSinceMidnight < NANOS_PER_DAY then DateOf(s) == Some(date) && TimeOf(s) == Some(time)
            else
              && DateOf(s).Some? && DaysSinceEpoch(DateOf(s).value) == DaysSinceEpoch(date) + 1
              && TimeOf(s) == Some(Time(time.nanosSinceMidnight - NANOS_PER_DAY, time.precision))
  {
    hide FromDaysSinceEpoch, DaysSinceEpoch, Valid;
    var s := Instant(date, time).value;
    var leaps := if time.nanosSinceMidnight < NANOS_PER_DAY then 0 else 1;
    QuotientAndRest(DaysSinceEpoch(date) + leaps, time.nanosSinceMidnight - leaps * NANOS_PER_DAY, NANOS_PER_DAY);
    FromDaysUndoesDays(date);
    PartsRecombine(s);
    DaysUndoesFromDays(s.unixNanos / NANOS_PER_DAY);
  }
}
