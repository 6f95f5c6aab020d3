/** FIX dates and their days since 1970-01-01. */
module Dates {
  import opened Wrappers
  import opened Bytes
  import opened Division

  const U16_MAX: nat := 0xFFFF

  datatype Date = Date(year: nat, month: nat, day: nat)

  const DAYS_PER_ERA: nat := 146_097
  /** The epoch, counted from 0000-03-01. */
  const EPOCH_FROM_MARCH: nat := 719_468

  predicate IsLeapYear(year: nat) {
    year % 4 == 0 && (year % 100 != 0 || year % 400 == 0)
  }

  function DaysInMonth(year: nat, month: nat): (days: nat)
    ensures 28 <= days <= 31
  {
    if month == 2 then if IsLeapYear(year) then 29 else 28
    else if month == 4 || month == 6 || month == 9 || month == 11 then 30
    else 31
  }

  /** Whether the date exists and its year fits four digits. */
  predicate Exists(year: nat, month: nat, day: nat) {
    year <= 9999 && 1 <= month <= 12 && 1 <= day <= DaysInMonth(year, month)
  }

  predicate Valid(d: Date) {
    Exists(d.year, d.month, d.day)
  }

  function NewDate(year: nat, month: nat, day: nat): (r: Option<Date>) {
    if Exists(year, month, day) then Some(Date(year, month, day)) else None
  }

  /** Days from 1970-01-01, counting years from March in eras of 400. */
  function DaysSinceEpoch(d: Date): (days: int)
    requires Valid(d)
  {
    var year := if d.month <= 2 then d.year - 1 else d.year;
    var era, yearOfEra := year / 400, year % 400;
    var monthFromMarch := (d.month + 9) % 12;
    var dayOfYear := (153 * monthFromMarch + 2) / 5 + d.day - 1;
    var dayOfEra := yearOfEra * 365 + yearOfEra / 4 - yearOfEra / 100 + dayOfYear;
    era * DAYS_PER_ERA + dayOfEra - EPOCH_FROM_MARCH
  }

  /** The year of an era that a day of the era is in. */
  function YearOfEra(dayOfEra: nat): int {
    (dayOfEra - dayOfEra / 1_460 + dayOfEra / 36_524 - dayOfEra / 146_096) / 365
  }

  function MonthFromMarch(dayOfYear: int): int {
    (5 * dayOfYear + 2) / 153
  }

  /** The date of a day of a year that starts in March. */
  function OnDay(marchYear: int, dayOfYear: int): (r: Option<Date>) {
    var monthFromMarch := MonthFromMarch(dayOfYear);
    var day := dayOfYear - (153 * monthFromMarch + 2) / 5 + 1;
    var month := if monthFromMarch < 10 then monthFromMarch + 3 else monthFromMarch - 9;
    var year := marchYear + if month <= 2 then 1 else 0;
    if 0 <= year <= U16_MAX && 0 <= month < 0x100 && 0 <= day < 0x100 then NewDate(year, month, day) else None
  }

  /** The date `days` after 1970-01-01, if its year fits four digits. */
  function FromDaysSinceEpoch(days: i64): (r: Option<Date>)
    ensures r.Some? ==> Valid(r.value)
  {
    if days + EPOCH_FROM_MARCH > I64_MAX then None
    else
      var fromMarch := days + EPOCH_FROM_MARCH;
      var era, dayOfEra := fromMarch / DAYS_PER_ERA, fromMarch % DAYS_PER_ERA;
      var yearOfEra := YearOfEra(dayOfEra);
      OnDay(era * 400 + yearOfEra, dayOfEra - (yearOfEra * 365 + yearOfEra / 4 - yearOfEra / 100))
  }

  // The calendar, counted year by year and month by month.

  function DaysInYear(year: nat): nat {
    if IsLeapYear(year) then 366 else 365
  }

  function DaysBeforeYear(year: nat): nat {
    if year == 0 then 0 else DaysBeforeYear(year - 1) + DaysInYear(year - 1)
  }

  function DaysBeforeMonth(year: nat, month: nat): nat
    requires 1 <= month <= 12
  {
    if month == 1 then 0 else DaysBeforeMonth(year, month - 1) + DaysInMonth(year, month - 1)
  }

  /** The number of days from 0000-01-01 to `d`. */
  function CalendarDays(d: Date): nat
    requires Valid(d)
  {
    DaysBeforeYear(d.year) + DaysBeforeMonth(d.year, d.month) + d.day - 1
  }

  /** The leap years up to `year`, from year 1 on. */
  function LeapYearsTo(year: int): int {
    year / 4 - year / 100 + year / 400
  }

  lemma FourYearsOn(year: int)
    ensures year / 4 == (year - 1) / 4 + if year % 4 == 0 then 1 else 0
  {
  }

  lemma HundredYearsOn(year: int)
    ensures year / 100 == (year - 1) / 100 + if year % 100 == 0 then 1 else 0
  {
  }

  lemma FourHundredYearsOn(year: int)
    ensures year / 400 == (year - 1) / 400 + if year % 400 == 0 then 1 else 0
  {
  }

  lemma LeapYearsToUnfolds(year: int)
    ensures LeapYearsTo(year) == year / 4 - year / 100 + year / 400
  {
  }

  /** Every 100th year is a 4th, and every 400th a 100th. */
  lemma MultiplesNest(year: int)
    ensures year % 100 == 0 ==> year % 4 == 0
    ensures year % 400 == 0 ==> year % 100 == 0
  {
    RestOfRest(year, 25, 4);
    RestOfRest(year, 4, 100);
  }

  lemma IsLeapYearByRests(year: nat, fourth: bool, hundredth: bool, fourHundredth: bool)
    requires fourth == (year % 4 == 0) && hundredth == (year % 100 == 0) && fourHundredth == (year % 400 == 0)
    ensures IsLeapYear(year) <==> fourth && (!hundredth || fourHundredth)
  {
  }

  lemma OneMoreLeapYear(year: nat)
    ensures LeapYearsTo(year) == LeapYearsTo(year - 1) + if IsLeapYear(year) then 1 else 0
  {
    hide IsLeapYear, LeapYearsTo;
    LeapYearsToUnfolds(year);
    LeapYearsToUnfolds(year - 1);
    FourYearsOn(year);
    HundredYearsOn(year);
    FourHundredYearsOn(year);
    MultiplesNest(year);
    IsLeapYearByRests(year, year % 4 == 0, year % 100 == 0, year % 400 == 0);
  }

  lemma {:induction false} DaysBeforeYearClosed(year: nat)
    ensures DaysBeforeYear(year) == 365 * year + LeapYearsTo(year - 1) + 1
  {
    if year > 0 {
      hide IsLeapYear, LeapYearsTo;
      DaysBeforeYearClosed(year - 1);
      OneMoreLeapYear(year - 1);
    }
  }

  /** Days from January to the start of a month, by the month counted from March. */
  lemma DaysBeforeMonthClosed(year: nat, month: nat)
    requires 1 <= month <= 12
    ensures var mp := (month + 9) % 12;
            DaysBeforeMonth(year, month) ==
              (153 * mp + 2) / 5 + if month <= 2 then -306 else if IsLeapYear(year) then 60 else 59
  {
    var leap := if IsLeapYear(year) then 29 else 28;
    hide IsLeapYear;
    assert DaysBeforeMonth(year, 1) == 0;
    assert DaysBeforeMonth(year, 2) == 31;
    assert DaysBeforeMonth(year, 3) == 31 + leap;
    assert DaysBeforeMonth(year, 4) == 62 + leap;
    assert DaysBeforeMonth(year, 5) == 92 + leap;
    assert DaysBeforeMonth(year, 6) == 123 + leap;
    assert DaysBeforeMonth(year, 7) == 153 + leap;
    assert DaysBeforeMonth(year, 8) == 184 + leap;
    assert DaysBeforeMonth(year, 9) == 215 + leap;
    assert DaysBeforeMonth(year, 10) == 245 + leap;
    assert DaysBeforeMonth(year, 11) == 276 + leap;
    assert DaysBeforeMonth(year, 12) == 306 + leap;
  }

  /** Days to 1 March of a year, by eras. */
  lemma DaysBeforeMarch(year: int)
    requires -1 <= year
    ensures var era, yoe := year / 400, year % 400;
            365 * year + LeapYearsTo(year) == era * DAYS_PER_ERA + yoe * 365 + yoe / 4 - yoe / 100
  {
    var era, yoe := year / 400, year % 400;
    assert year / 4 == 100 * era + yoe / 4;
    assert year / 100 == 4 * era + yoe / 100;
  }

  /** The calendar's days to a date, by the year that starts in March. */
  lemma CalendarDaysFromMarch(d: Date)
    requires Valid(d)
    ensures var year := if d.month <= 2 then d.year - 1 else d.year;
            CalendarDays(d) ==
              365 * year + LeapYearsTo(year) + (153 * ((d.month + 9) % 12) + 2) / 5 + d.day - 1 + 60
  {
    hide DaysBeforeYear, DaysBeforeMonth, IsLeapYear, LeapYearsTo;
    DaysBeforeYearClosed(d.year);
    DaysBeforeMonthClosed(d.year, d.month);
    OneMoreLeapYear(d.year);
  }

  /** The days since the epoch are the calendar's days, counted one year and month at a time. */
  lemma DaysSinceEpochIsCalendar(d: Date)
    requires Valid(d)
    ensures DaysSinceEpoch(d) == CalendarDays(d) - CalendarDays(Date(1970, 1, 1))
  {
    hide CalendarDays, DaysSinceEpoch, LeapYearsTo;
    EpochInCalendar();
    CalendarDaysFromMarch(d);
    DaysFromMarch(d);
  }

  lemma EpochInCalendar()
    ensures CalendarDays(Date(1970, 1, 1)) == 719_528
  {
    hide CalendarDays;
    CalendarDaysFromMarch(Date(1970, 1, 1));
  }

  /** The days since the epoch, by the year that starts in March. */
  lemma DaysFromMarch(d: Date)
    requires Valid(d)
    ensures var year := if d.month <= 2 then d.year - 1 else d.year;
            DaysSinceEpoch(d) + EPOCH_FROM_MARCH ==
              365 * year + LeapYearsTo(year) + (153 * ((d.month + 9) % 12) + 2) / 5 + d.day - 1
  {
    hide DaysInMonth, IsLeapYear, LeapYearsTo;
    DaysBeforeMarch(if d.month <= 2 then d.year - 1 else d.year);
  }

  // A day of an era, as centuries, leap cycles of four years, years and days, all from March.

  predicate Place(centuries: nat, cycles: nat, years: nat, dayOfYear: nat) {
    && centuries <= 3 && cycles <= 24 && years <= 3 && dayOfYear <= 365
    && (dayOfYear == 365 ==> EndsInLeapDay(centuries, cycles, years))
  }

  /** Whether a year from March ends in 29 February. */
  predicate EndsInLeapDay(centuries: nat, cycles: nat, years: nat) {
    years == 3 && (cycles == 24 ==> centuries == 3)
  }

  function DayAt(centuries: nat, cycles: nat, years: nat, dayOfYear: nat): nat {
    36_524 * centuries + 1_461 * cycles + 365 * years + dayOfYear
  }

  /** The era's year formula finds the year a day is in. */
  lemma YearOfEraFinds(centuries: nat, cycles: nat, years: nat, dayOfYear: nat)
    requires Place(centuries, cycles, years, dayOfYear)
    ensures var day, year := DayAt(centuries, cycles, years, dayOfYear), 100 * centuries + 4 * cycles + years;
            && day < DAYS_PER_ERA && YearOfEra(day) == year
            && day - (year * 365 + year / 4 - year / 100) == dayOfYear
  {
    var day, year := DayAt(centuries, cycles, years, dayOfYear), 100 * centuries + 4 * cycles + years;
    CenturiesOf(centuries, cycles, years, dayOfYear);
    LeapDaysOf(centuries, cycles, years, dayOfYear);
    hide YearOfEra, EndsInLeapDay;
    var carried := (24 * centuries + cycles + 365 * years + dayOfYear) / 1_460;
    NumeratorOf(day, year, dayOfYear, carried, centuries, cycles);
    QuotientAndRest(year, dayOfYear - carried, 365);
    YearOfEraUnfolds(day);
    LeapYearsOf(centuries, cycles, years);
  }

  lemma YearOfEraUnfolds(day: nat)
    ensures YearOfEra(day) == (day - day / 1_460 + day / 36_524 - day / 146_096) / 365
  {
  }

  lemma CenturiesOf(centuries: nat, cycles: nat, years: nat, dayOfYear: nat)
    requires Place(centuries, cycles, years, dayOfYear)
    ensures var day := DayAt(centuries, cycles, years, dayOfYear);
            day < DAYS_PER_ERA && day / 36_524 - day / 146_096 == centuries
  {
    var rest := 1_461 * cycles + 365 * years + dayOfYear;
    assert rest <= 36_524 && (rest == 36_524 ==> centuries == 3);
  }

  /** The days counted past 365 a year, and when another is counted too early. */
  lemma LeapDaysOf(centuries: nat, cycles: nat, years: nat, dayOfYear: nat)
    requires Place(centuries, cycles, years, dayOfYear)
    ensures var carried := (24 * centuries + cycles + 365 * years + dayOfYear) / 1_460;
            && DayAt(centuries, cycles, years, dayOfYear) / 1_460 == 25 * centuries + cycles + carried
            && 0 <= dayOfYear - carried < 365
  {
    var over := 24 * centuries + cycles + 365 * years + dayOfYear;
    assert DayAt(centuries, cycles, years, dayOfYear) == 1_460 * (25 * centuries + cycles) + over;
    assert over < 2 * 1_460;
    assert over >= 1_460 ==> dayOfYear > 0;
    assert dayOfYear == 365 ==> over >= 1_460;
  }

  lemma NumeratorOf(day: nat, year: nat, dayOfYear: nat, carried: nat, centuries: nat, cycles: nat)
    requires day / 36_524 - day / 146_096 == centuries && day / 1_460 == 25 * centuries + cycles + carried
    requires day == year * 365 + 24 * centuries + cycles + dayOfYear
    ensures day - day / 1_460 + day / 36_524 - day / 146_096 == year * 365 + (dayOfYear - carried)
  {
  }

  lemma LeapYearsOf(centuries: nat, cycles: nat, years: nat)
    requires cycles <= 24 && years <= 3
    ensures var year := 100 * centuries + 4 * cycles + years; year / 4 == 25 * centuries + cycles && year / 100 == centuries
  {
  }

  /** Every day of an era has its place. */
  lemma DayHasPlace(day: nat) returns (centuries: nat, cycles: nat, years: nat, dayOfYear: nat)
    requires day < DAYS_PER_ERA
    ensures Place(centuries, cycles, years, dayOfYear) && DayAt(centuries, cycles, years, dayOfYear) == day
  {
    centuries := if day < 36_524 then 0 else if day < 73_048 then 1 else if day < 109_572 then 2 else 3;
    var inCentury := day - 36_524 * centuries;
    cycles := inCentury / 1_461;
    var inCycle := inCentury % 1_461;
    years := if inCycle < 365 then 0 else if inCycle < 730 then 1 else if inCycle < 1_095 then 2 else 3;
    dayOfYear := inCycle - 365 * years;
  }

  // A day of a year from March, as a month and a day.

  /** The first day of a month, in a year from March. */
  function MonthStart(monthFromMarch: nat): nat {
    (153 * monthFromMarch + 2) / 5
  }

  function MarchYear(d: Date): int {
    if d.month <= 2 then d.year - 1 else d.year
  }

  function MarchDay(d: Date): int {
    MonthStart((d.month + 9) % 12) + d.day - 1
  }

  lemma MonthFinds(monthFromMarch: nat, days: nat)
    requires monthFromMarch <= 11
    requires if monthFromMarch == 11 then days <= 28 else MonthStart(monthFromMarch) + days < MonthStart(monthFromMarch + 1)
    ensures MonthFromMarch(MonthStart(monthFromMarch) + days) == monthFromMarch
  {
  }

  /** Each month but February runs to the start of the next. */
  lemma MonthsRunOn(year: nat, month: nat)
    requires 1 <= month <= 12 && month != 2
    ensures var mp := (month + 9) % 12; MonthStart(mp) + DaysInMonth(year, month) == MonthStart(mp + 1)
  {
    assert MonthStart(0) == 0 && MonthStart(1) == 31 && MonthStart(2) == 61 && MonthStart(3) == 92;
    assert MonthStart(4) == 122 && MonthStart(5) == 153 && MonthStart(6) == 184 && MonthStart(7) == 214;
    assert MonthStart(8) == 245 && MonthStart(9) == 275 && MonthStart(10) == 306 && MonthStart(11) == 337;
  }

  /** A date is found again from its year and day, both from March. */
  lemma OnDayFinds(d: Date)
    requires Valid(d)
    ensures OnDay(MarchYear(d), MarchDay(d)) == Some(d)
  {
    hide IsLeapYear, MonthStart, MonthFromMarch, DaysInMonth, OnDay;
    var mp := (d.month + 9) % 12;
    DayBeforeNext(d);
    MonthFinds(mp, d.day - 1);
    OnDayUnfolds(MarchYear(d), MarchDay(d), mp, d.day - 1);
  }

  /** A date's day is before the next month starts. */
  lemma DayBeforeNext(d: Date)
    requires Valid(d)
    ensures var mp := (d.month + 9) % 12;
            && d.day <= 31
            && if mp == 11 then d.day <= 29 else MonthStart(mp) + d.day <= MonthStart(mp + 1)
  {
    hide IsLeapYear, MonthStart;
    if d.month != 2 { MonthsRunOn(d.year, d.month); }
  }

  /** A day of a year from March is a date just when its year fits four digits. */
  lemma OnDayIs(marchYear: int, dayOfYear: nat)
    requires dayOfYear <= 365 && (dayOfYear == 365 ==> 0 <= marchYear + 1 ==> IsLeapYear(marchYear + 1))
    ensures var year, r := marchYear + if dayOfYear < 306 then 0 else 1, OnDay(marchYear, dayOfYear);
            && (r.Some? <==> 0 <= year <= 9999)
            && (r.Some? ==> MarchYear(r.value) == marchYear && MarchDay(r.value) == dayOfYear)
  {
    hide IsLeapYear, MonthFromMarch, DaysInMonth, MonthStart;
    var mp, days := MonthOf(dayOfYear);
    MonthFinds(mp, days);
    var month := if mp < 10 then mp + 3 else mp - 9;
    var year := marchYear + if dayOfYear < 306 then 0 else 1;
    assert (month + 9) % 12 == mp;
    if year >= 0 { DayIsInMonth(year, mp, days); }
    OnDayUnfolds(marchYear, dayOfYear, mp, days);
  }

  lemma OnDayUnfolds(marchYear: int, dayOfYear: nat, monthFromMarch: nat, days: nat)
    requires monthFromMarch <= 11 && days <= 30 && MonthStart(monthFromMarch) + days == dayOfYear
    requires MonthFromMarch(dayOfYear) == monthFromMarch
    ensures var year, month := marchYear + if monthFromMarch < 10 then 0 else 1, if monthFromMarch < 10 then monthFromMarch + 3 else monthFromMarch - 9;
            OnDay(marchYear, dayOfYear) == if 0 <= year <= U16_MAX then NewDate(year, month, days + 1) else None
  {
    hide MonthFromMarch, NewDate;
  }

  lemma DayIsInMonth(year: nat, monthFromMarch: nat, days: nat)
    requires monthFromMarch <= 11
    requires if monthFromMarch == 11 then days < (if IsLeapYear(year) then 29 else 28)
             else MonthStart(monthFromMarch) + days < MonthStart(monthFromMarch + 1)
    ensures days < DaysInMonth(year, if monthFromMarch < 10 then monthFromMarch + 3 else monthFromMarch - 9) <= 31
  {
    hide IsLeapYear;
    var month := if monthFromMarch < 10 then monthFromMarch + 3 else monthFromMarch - 9;
    if month != 2 {
      MonthsRunOn(year, month);
    }
  }

  lemma MonthOf(dayOfYear: nat) returns (monthFromMarch: nat, days: nat)
    requires dayOfYear <= 365
    ensures monthFromMarch <= 11 && MonthStart(monthFromMarch) + days == dayOfYear
    ensures if monthFromMarch == 11 then days <= 28 else dayOfYear < MonthStart(monthFromMarch + 1)
    ensures monthFromMarch < 10 <==> dayOfYear < 306
    ensures days <= 30 && (monthFromMarch == 11 && days == 28 ==> dayOfYear == 365)
  {
    assert MonthStart(0) == 0 && MonthStart(1) == 31 && MonthStart(2) == 61 && MonthStart(3) == 92;
    assert MonthStart(4) == 122 && MonthStart(5) == 153 && MonthStart(6) == 184 && MonthStart(7) == 214;
    assert MonthStart(8) == 245 && MonthStart(9) == 275 && MonthStart(10) == 306 && MonthStart(11) == 337;
    monthFromMarch :=
      if dayOfYear < 31 then 0 else if dayOfYear < 61 then 1 else if dayOfYear < 92 then 2
      else if dayOfYear < 122 then 3 else if dayOfYear < 153 then 4 else if dayOfYear < 184 then 5
      else if dayOfYear < 214 then 6 else if dayOfYear < 245 then 7 else if dayOfYear < 275 then 8
      else if dayOfYear < 306 then 9 else if dayOfYear < 337 then 10 else 11;
    days := dayOfYear - MonthStart(monthFromMarch);
  }

  /** The year after one that ends in 29 February is a leap year. */
  lemma LeapDayEndsYear(era: int, centuries: nat, cycles: nat, years: nat)
    requires centuries <= 3 && cycles <= 24 && years <= 3
    requires 0 <= 400 * era + 100 * centuries + 4 * cycles + years + 1
    ensures IsLeapYear(400 * era + 100 * centuries + 4 * cycles + years + 1) <==> EndsInLeapDay(centuries, cycles, years)
  {
    hide IsLeapYear;
    var year := 400 * era + 100 * centuries + 4 * cycles + years + 1;
    IsLeapYearByRests(year, year % 4 == 0, year % 100 == 0, year % 400 == 0);
    FourthYear(100 * era + 25 * centuries + cycles, years);
    if years == 3 {
      HundredthYear(4 * era + centuries, cycles);
      if cycles == 24 { FourHundredthYear(era, centuries); }
    }
  }

  lemma FourthYear(cycle: int, years: nat)
    requires years <= 3
    ensures (cycle * 4 + (years + 1)) % 4 == 0 <==> years == 3
  {
    WholeUnits(cycle, years + 1, 4);
  }

  lemma HundredthYear(century: int, cycles: nat)
    requires cycles <= 24
    ensures (century * 100 + 4 * (cycles + 1)) % 100 == 0 <==> cycles == 24
  {
    WholeUnits(century, 4 * (cycles + 1), 100);
  }

  lemma FourHundredthYear(era: int, centuries: nat)
    requires centuries <= 3
    ensures (era * 400 + 100 * (centuries + 1)) % 400 == 0 <==> centuries == 3
  {
    WholeUnits(era, 100 * (centuries + 1), 400);
  }

  /** The day of a date's era is at a place of its own. */
  lemma DateHasPlace(d: Date) returns (era: int, centuries: nat, cycles: nat, years: nat)
    requires Valid(d)
    ensures Place(centuries, cycles, years, MarchDay(d))
    ensures MarchYear(d) == 400 * era + 100 * centuries + 4 * cycles + years
    ensures DaysSinceEpoch(d) + EPOCH_FROM_MARCH == era * DAYS_PER_ERA + DayAt(centuries, cycles, years, MarchDay(d))
  {
    hide IsLeapYear, EndsInLeapDay;
    var year := MarchYear(d);
    era := year / 400;
    var yearOfEra := year % 400;
    centuries, cycles, years := yearOfEra / 100, yearOfEra % 100 / 4, yearOfEra % 4;
    assert yearOfEra % 100 % 4 == years;
    LeapYearsOf(centuries, cycles, years);
    MarchDayIsInYear(d);
    if MarchDay(d) == 365 { LeapDayEndsYear(era, centuries, cycles, years); }
    hide MarchDay;
  }

  lemma MarchDayIsInYear(d: Date)
    requires Valid(d)
    ensures 0 <= MarchDay(d) <= 365
    ensures MarchDay(d) == 365 ==> d.month == 2 && IsLeapYear(d.year)
    ensures MarchDay(d) == (153 * ((d.month + 9) % 12) + 2) / 5 + d.day - 1
  {
    hide IsLeapYear;
    if d.month != 2 { MonthsRunOn(d.year, d.month); }
    assert MonthStart(11) == 337;
  }

  /** Days of an era, once it and its place are known. */
  lemma FromPlace(era: int, centuries: nat, cycles: nat, years: nat, dayOfYear: nat)
    requires Place(centuries, cycles, years, dayOfYear)
    requires var days := era * DAYS_PER_ERA + DayAt(centuries, cycles, years, dayOfYear) - EPOCH_FROM_MARCH;
             I64_MIN <= days && days + EPOCH_FROM_MARCH <= I64_MAX
    ensures var days := era * DAYS_PER_ERA + DayAt(centuries, cycles, years, dayOfYear) - EPOCH_FROM_MARCH;
            FromDaysSinceEpoch(days) == OnDay(400 * era + 100 * centuries + 4 * cycles + years, dayOfYear)
  {
    hide Place, DayAt, OnDay, YearOfEra;
    YearOfEraFinds(centuries, cycles, years, dayOfYear);
    QuotientAndRest(era, DayAt(centuries, cycles, years, dayOfYear), DAYS_PER_ERA);
  }

  const FIRST_DAY: int := -719_528
  const LAST_DAY: int := 2_932_896

  /** Every date is found again from its days since the epoch. */
  lemma FromDaysUndoesDays(d: Date)
    requires Valid(d)
    ensures FIRST_DAY <= DaysSinceEpoch(d) <= LAST_DAY
    ensures FromDaysSinceEpoch(DaysSinceEpoch(d)) == Some(d)
  {
    hide Valid, DaysSinceEpoch, FromDaysSinceEpoch, Place, DayAt, OnDay, MarchDay, MarchYear;
    var era, centuries, cycles, years := DateHasPlace(d);
    DaysAreWithin(d, era, centuries, cycles, years);
    MarchDayIsInYear(d);
    FromPlace(era, centuries, cycles, years, MarchDay(d));
    OnDayFinds(d);
  }

  lemma DaysAreWithin(d: Date, era: int, centuries: nat, cycles: nat, years: nat)
    requires Valid(d) && Place(centuries, cycles, years, MarchDay(d))
    requires MarchYear(d) == 400 * era + 100 * centuries + 4 * cycles + years
    requires DaysSinceEpoch(d) + EPOCH_FROM_MARCH == era * DAYS_PER_ERA + DayAt(centuries, cycles, years, MarchDay(d))
    ensures FIRST_DAY <= DaysSinceEpoch(d) <= LAST_DAY
  {
    hide DaysSinceEpoch, IsLeapYear;
    OnDayFinds(d);
    WithinYears(era, centuries, cycles, years, MarchDay(d));
  }

  /** A day is within years 0 to 9999 just when it is from the first to the last of their days. */
  lemma WithinYears(era: int, centuries: nat, cycles: nat, years: nat, dayOfYear: nat)
    requires Place(centuries, cycles, years, dayOfYear)
    ensures var year := 400 * era + 100 * centuries + 4 * cycles + years + if dayOfYear < 306 then 0 else 1;
            0 <= year <= 9999 <==>
              FIRST_DAY <= era * DAYS_PER_ERA + DayAt(centuries, cycles, years, dayOfYear) - EPOCH_FROM_MARCH <= LAST_DAY
  {
    var yearOfEra, day := 100 * centuries + 4 * cycles + years, DayAt(centuries, cycles, years, dayOfYear);
    assert yearOfEra == 399 && dayOfYear >= 306 <==> day >= 146_037;
    assert day < DAYS_PER_ERA;
  }

  /** The days a date is found from are its days since the epoch: there is one exactly within years 0 to 9999. */
  lemma DaysUndoesFromDays(days: i64)
    ensures FromDaysSinceEpoch(days).Some? <==> FIRST_DAY <= days <= LAST_DAY
    ensures var d := FromDaysSinceEpoch(days); d.Some? ==> DaysSinceEpoch(d.value) == days
  {
    if days + EPOCH_FROM_MARCH <= I64_MAX {
      hide DayAt, FromDaysSinceEpoch, DaysSinceEpoch, Place;
      var fromMarch := days + EPOCH_FROM_MARCH;
      var centuries, cycles, years, dayOfYear := DayHasPlace(fromMarch % DAYS_PER_ERA);
      PlaceGivesDate(days, fromMarch / DAYS_PER_ERA, centuries, cycles, years, dayOfYear);
    }
  }

  lemma PlaceGivesDate(days: i64, era: int, centuries: nat, cycles: nat, years: nat, dayOfYear: nat)
    requires Place(centuries, cycles, years, dayOfYear) && days + EPOCH_FROM_MARCH <= I64_MAX
    requires days == era * DAYS_PER_ERA + DayAt(centuries, cycles, years, dayOfYear) - EPOCH_FROM_MARCH
    ensures FromDaysSinceEpoch(days).Some? <==> FIRST_DAY <= days <= LAST_DAY
    ensures var d := FromDaysSinceEpoch(days); d.Some? ==> DaysSinceEpoch(d.value) == days
  {
    hide Place, DayAt, OnDay, FromDaysSinceEpoch, DaysSinceEpoch, MarchDay, MarchYear, IsLeapYear, Valid;
    FromPlace(era, centuries, cycles, years, dayOfYear);
    PlaceIsInYear(era, centuries, cycles, years, dayOfYear);
    OnDayIs(400 * era + 100 * centuries + 4 * cycles + years, dayOfYear);
    WithinYears(era, centuries, cycles, years, dayOfYear);
    var r := FromDaysSinceEpoch(days);
    if r.Some? {
      PlacesAreDays(r.value, era, centuries, cycles, years, dayOfYear);
    }
  }

  lemma PlaceIsInYear(era: int, centuries: nat, cycles: nat, years: nat, dayOfYear: nat)
    requires Place(centuries, cycles, years, dayOfYear)
    ensures dayOfYear <= 365
    ensures var next := 400 * era + 100 * centuries + 4 * cycles + years + 1;
            dayOfYear == 365 ==> 0 <= next ==> IsLeapYear(next)
  {
    if 0 <= 400 * era + 100 * centuries + 4 * cycles + years + 1 { LeapDayEndsYear(era, centuries, cycles, years); }
    hide IsLeapYear, EndsInLeapDay;
  }

  lemma PlacesAreDays(d: Date, era: int, centuries: nat, cycles: nat, years: nat, dayOfYear: nat)
    requires Valid(d) && Place(centuries, cycles, years, dayOfYear)
    requires MarchYear(d) == 400 * era + 100 * centuries + 4 * cycles + years && MarchDay(d) == dayOfYear
    ensures DaysSinceEpoch(d) == era * DAYS_PER_ERA + DayAt(centuries, cycles, years, dayOfYear) - EPOCH_FROM_MARCH
  {
    hide DaysSinceEpoch, Valid, EndsInLeapDay;
    var era', centuries', cycles', years' := DateHasPlace(d);
    SamePlace(era, centuries, cycles, years, era', centuries', cycles', years');
  }

  lemma SamePlace(era: int, centuries: nat, cycles: nat, years: nat, era': int, centuries': nat, cycles': nat, years': nat)
    requires centuries <= 3 && cycles <= 24 && years <= 3 && centuries' <= 3 && cycles' <= 24 && years' <= 3
    requires 400 * era + 100 * centuries + 4 * cycles + years == 400 * era' + 100 * centuries' + 4 * cycles' + years'
    ensures era == era' && centuries == centuries' && cycles == cycles' && years == years'
  {
  }

  /** The days since the epoch run from the first day of year 0 to the last of year 9999. */
  lemma DaysSpanYears()
    ensures DaysSinceEpoch(Date(0, 1, 1)) == FIRST_DAY && DaysSinceEpoch(Date(9999, 12, 31)) == LAST_DAY
    ensures DaysSinceEpoch(Date(1970, 1, 1)) == 0
  {
    hide DaysSinceEpoch;
    DaysFromMarch(Date(0, 1, 1));
    DaysFromMarch(Date(9999, 12, 31));
    DaysFromMarch(Date(1970, 1, 1));
  }

  /** Dates compare by year, then month, then day. */
  predicate Before(a: Date, b: Date) {
    a.year < b.year || (a.year == b.year && (a.month < b.month || (a.month == b.month && a.day < b.day)))
  }

  lemma {:induction false} MonthsAddUp(year: nat, month: nat, later: nat)
    requires 1 <= month < later <= 12
    ensures DaysBeforeMonth(year, month) + DaysInMonth(year, month) <= DaysBeforeMonth(year, later)
    decreases later - month
  {
    hide DaysInMonth;
    if month + 1 < later { MonthsAddUp(year, month, later - 1); }
  }

  lemma {:induction false} YearsAddUp(year: nat, later: nat)
    requires year < later
    ensures DaysBeforeYear(year) + DaysInYear(year) <= DaysBeforeYear(later)
    decreases later - year
  {
    hide DaysInYear;
    if year + 1 < later { YearsAddUp(year, later - 1); }
  }

  lemma DayOfYearIsInYear(d: Date)
    requires Valid(d)
    ensures DaysBeforeMonth(d.year, d.month) + d.day <= DaysInYear(d.year)
  {
    hide DaysInMonth, DaysBeforeMonth, IsLeapYear;
    if d.month < 12 { MonthsAddUp(d.year, d.month, 12); }
    DaysBeforeMonthClosed(d.year, 12);
    December(d.year);
  }

  lemma December(year: nat)
    ensures DaysInMonth(year, 12) == 31
  {
  }

  lemma CalendarDaysKeepOrder(a: Date, b: Date)
    requires Valid(a) && Valid(b) && Before(a, b)
    ensures CalendarDays(a) < CalendarDays(b)
  {
    hide DaysInMonth, DaysBeforeMonth, DaysInYear, DaysBeforeYear;
    if a.year < b.year {
      DayOfYearIsInYear(a);
      YearsAddUp(a.year, b.year);
    } else if a.month < b.month {
      MonthsAddUp(a.year, a.month, b.month);
    }
  }

  /** Days since the epoch keep the order of dates. */
  lemma DaysKeepOrder(a: Date, b: Date)
    requires Valid(a) && Valid(b)
    ensures Before(a, b) <==> DaysSinceEpoch(a) < DaysSinceEpoch(b)
  {
    hide CalendarDays, DaysSinceEpoch, Valid;
    DaysSinceEpochIsCalendar(a);
    DaysSinceEpochIsCalendar(b);
    if Before(a, b) {
      CalendarDaysKeepOrder(a, b);
    } else if Before(b, a) {
      CalendarDaysKeepOrder(b, a);
    }
  }
}
