/** The contract's date helpers: a date is a plain `(year, month, day)` triple
    of `(u16, u8, u8)`; validation, weekday and day arithmetic go through the
    proleptic Gregorian calendar of module Gregorian, while `Compare` is the
    contract's own approximate formula. */
module Dates {
  import opened Ints
  import opened Wrappers
  import opened Errors
  import Gregorian

  /** A triple as the caller sends it, not yet validated. */
  type UncheckedDate = (u16, u8, u8)
  /** The same triple once it has been through `FromUnchecked`. */
  type Date = UncheckedDate

  const MS_PER_SECOND: int := 1000
  const MS_PER_DAY: int := 86_400_000

  /** The contract's own weekday enum, keyed on by the repeating notes. */
  datatype DayOfWeek = Sun | Mon | Tue | Wed | Thu | Fri | Sat {
    function Next(): DayOfWeek {
      match this
      case Sun => Mon
      case Mon => Tue
      case Tue => Wed
      case Wed => Thu
      case Thu => Fri
      case Fri => Sat
      case Sat => Sun
    }
  }

  /** `From<Weekday> for DayOfWeek`. */
  function FromWeekday(w: Gregorian.Weekday): DayOfWeek {
    match w
    case Mon => DayOfWeek.Mon
    case Tue => DayOfWeek.Tue
    case Wed => DayOfWeek.Wed
    case Thu => DayOfWeek.Thu
    case Fri => DayOfWeek.Fri
    case Sat => DayOfWeek.Sat
    case Sun => DayOfWeek.Sun
  }

  /** A triple that names a real day of the proleptic Gregorian calendar
      (every `u16` year lies inside chrono's range). */
  predicate IsValidDate(d: UncheckedDate) {
    Gregorian.IsCivil(d.0, d.1, d.2)
  }

  /** The day number (days since 0000-01-01) of a valid triple. */
  function DayNumberOf(d: UncheckedDate): int
    requires IsValidDate(d)
  {
    Gregorian.DayNumber(d.0, d.1, d.2)
  }

  /** `from_naive`: the year goes through `year_ce` (so year 0 comes back as
      1) and is cast to `u16`, which keeps it modulo 2^16. */
  function FromNaive(nd: Gregorian.NaiveDate): Date
    requires nd.Valid()
  {
    (nd.YearCe().1 % U16_LIMIT, nd.Month0() + 1, nd.Day0() + 1)
  }

  /** Timestamps whose day chrono can represent; beyond them `from_timestamp`
      panics on `unwrap`. */
  predicate SupportedTimestamp(timestampMillis: u64) {
    Gregorian.DayInRange(Gregorian.EPOCH_DAY + timestampMillis / MS_PER_SECOND / Gregorian.SECONDS_PER_DAY)
  }

  /** `from_timestamp`: the UTC date of a millisecond timestamp. The year is
      cast from `i32` to `u16`, which keeps it modulo 2^16. */
  function FromTimestamp(timestampMillis: u64): Date
    requires SupportedTimestamp(timestampMillis)
  {
    var timestampSeconds := timestampMillis / MS_PER_SECOND;
    var today := Gregorian.FromTimestampOpt(timestampSeconds).value;
    (today.year % U16_LIMIT, today.month, today.day)
  }

  /** `from_unchecked`: the triple normalised by `from_naive` when it is a
      real date, `InvalidDate` otherwise. */
  function FromUnchecked(date: UncheckedDate): Result<Date, TodoError> {
    match Gregorian.FromYmdOpt(date.0, date.1, date.2)
    case Some(d) => Ok(FromNaive(d))
    case None => Err(InvalidDate)
  }

  /** `day_of_week`. */
  function DayOfWeekOf(date: Date): Result<DayOfWeek, TodoError> {
    match Gregorian.FromYmdOpt(date.0, date.1, date.2)
    case Some(d) => Ok(FromWeekday(d.WeekdayOf()))
    case None => Err(InvalidDate)
  }

  /** `compare`: the difference of the keys `365 * year + 30 * month + day`,
      computed in `i32`; every intermediate value is checked to fit. */
  function Compare(a: Date, b: Date): i32 {
    var keyA: i32 := a.0 * 365 + a.1 * 30 + a.2;
    var keyB: i32 := b.0 * 365 + b.1 * 30 + b.2;
    keyA - keyB
  }

  /** `add_days`; both `unwrap`s become preconditions. */
  function AddDays(date: Date, days: u64): Date
    requires IsValidDate(date)
    requires Gregorian.DayInRange(DayNumberOf(date) + days)
  {
    var d := Gregorian.FromYmdOpt(date.0, date.1, date.2).value;
    FromNaive(d.CheckedAddDays(days).value)
  }

  /** `subtract_days`; both `unwrap`s become preconditions. */
  function SubtractDays(date: Date, days: u64): Date
    requires IsValidDate(date)
    requires Gregorian.DayInRange(DayNumberOf(date) - days)
  {
    var d := Gregorian.FromYmdOpt(date.0, date.1, date.2).value;
    FromNaive(d.CheckedSubDays(days).value)
  }

  // ---------------------------------------------------------------------
  // Validation
  // ---------------------------------------------------------------------

  /** `from_unchecked` accepts exactly the real calendar days. */
  lemma FromUncheckedAcceptsValidDates(date: UncheckedDate)
    ensures FromUnchecked(date).Ok? <==> IsValidDate(date)
    ensures FromUnchecked(date).Err? ==> FromUnchecked(date).error == InvalidDate
  {
  }

  /** A valid date of the Common Era comes back unchanged. */
  lemma FromUncheckedKeepsCommonEraDates(date: UncheckedDate)
    requires IsValidDate(date) && date.0 >= 1
    ensures FromUnchecked(date) == Ok(date)
  {
  }

  /** A valid date of year 0 comes back with year 1 (`year_ce`). */
  lemma FromUncheckedMovesYearZero(date: UncheckedDate)
    requires IsValidDate(date) && date.0 == 0
    ensures FromUnchecked(date) == Ok((1, date.1, date.2))
  {
  }

  /** Normalising twice gives what normalising once gave, for every triple
      except the leap day of year 0. */
  lemma FromUncheckedIdempotent(date: UncheckedDate)
    requires FromUnchecked(date).Ok?
    requires date != (0, 2, 29)
    ensures FromUnchecked(FromUnchecked(date).value) == FromUnchecked(date)
  {
    if date.0 == 0 {
      FromUncheckedMovesYearZero(date);
      FromUncheckedKeepsCommonEraDates((1, date.1, date.2));
    } else {
      FromUncheckedKeepsCommonEraDates(date);
    }
  }

  /** Year 0 is a leap year, year 1 is not: the leap day of year 0 is
      accepted but normalised to 1-02-29, which is not a date, so any later
      weekday lookup on it fails. */
  lemma YearZeroLeapDay()
    ensures FromUnchecked((0, 2, 29)) == Ok((1, 2, 29))
    ensures FromUnchecked((1, 2, 29)) == Err(InvalidDate)
    ensures DayOfWeekOf((1, 2, 29)) == Err(InvalidDate)
  {
  }

  // ---------------------------------------------------------------------
  // Comparison
  // ---------------------------------------------------------------------

  /** `compare` is zero on equal dates and antisymmetric. */
  lemma CompareAntisymmetric(a: Date, b: Date)
    ensures Compare(a, a) == 0
    ensures Compare(a, b) == -Compare(b, a)
  {
  }

  /** The keys of `u16`/`u8` triples differ by far less than the `i32` range. */
  lemma CompareMagnitude(a: Date, b: Date)
    ensures -23_928_180 <= Compare(a, b) <= 23_928_180
  {
  }

  /** The tie of the approximate formula: the 31st of a month against the
      1st of the next month of the same year. */
  predicate MonthEndTie(a: Date, b: Date) {
    a.0 == b.0 && a.1 + 1 == b.1 && a.2 == 31 && b.2 == 1
  }

  /** On valid dates `compare` never reverses calendar order: an earlier
      date compares as earlier or equal. */
  lemma CompareNeverReversesChronology(a: Date, b: Date)
    requires IsValidDate(a) && IsValidDate(b)
    requires DayNumberOf(a) < DayNumberOf(b)
    ensures Compare(a, b) <= 0
  {
    Gregorian.NumberOrderIsCalendarOrder(
      Gregorian.NaiveDate(a.0, a.1, a.2), Gregorian.NaiveDate(b.0, b.1, b.2));
  }

  /** Two distinct valid dates compare as equal exactly in the month-end tie. */
  lemma CompareTiesExactly(a: Date, b: Date)
    requires IsValidDate(a) && IsValidDate(b)
    requires a != b
    ensures Compare(a, b) == 0 <==> MonthEndTie(a, b) || MonthEndTie(b, a)
  {
  }

  /** The two dates of a tie are consecutive days. */
  lemma MonthEndTieIsNextDay(a: Date, b: Date)
    requires IsValidDate(a) && IsValidDate(b)
    requires MonthEndTie(a, b)
    ensures DayNumberOf(b) == DayNumberOf(a) + 1
  {
    Gregorian.DaysBeforeNextMonth(a.0, a.1);
  }

  // ---------------------------------------------------------------------
  // Day arithmetic
  // ---------------------------------------------------------------------

  /** Day numbers of the years 1 to 65535, the years a `Date` holds unchanged. */
  predicate InCommonEraU16(n: int) {
    Gregorian.DaysBeforeYear(1) <= n < Gregorian.DaysBeforeYear(U16_LIMIT)
  }

  /** A valid `Date` of the Common Era is numbered within years 1 to 65535. */
  lemma DayNumberInCommonEra(date: Date)
    requires IsValidDate(date) && date.0 >= 1
    ensures InCommonEraU16(DayNumberOf(date))
  {
    Gregorian.DayNumberWithinYear(Gregorian.NaiveDate(date.0, date.1, date.2));
    Gregorian.DaysBeforeYearGrows(1, date.0);
    Gregorian.DaysBeforeYearGrows(date.0 + 1, U16_LIMIT);
  }

  /** Every day of the years 1 to 65535 is within chrono's range. */
  lemma CommonEraU16InRange(n: int)
    requires InCommonEraU16(n)
    ensures Gregorian.DayInRange(n)
  {
    Gregorian.DaysBeforeYearGrows(Gregorian.MIN_YEAR, 1);
    Gregorian.DaysBeforeYearGrows(U16_LIMIT, Gregorian.MAX_YEAR + 1);
  }

  /** Where the result stays in years 1 to 65535, `from_naive` of the date
      numbered `n` is that date's own triple. */
  lemma FromNaiveOfDayNumber(n: int)
    requires InCommonEraU16(n)
    ensures Gregorian.DayInRange(n)
    ensures IsValidDate(FromNaive(Gregorian.FromDayNumberOpt(n).value))
    ensures FromNaive(Gregorian.FromDayNumberOpt(n).value).0 >= 1
    ensures DayNumberOf(FromNaive(Gregorian.FromDayNumberOpt(n).value)) == n
  {
    CommonEraU16InRange(n);
    Gregorian.FromDayNumberOptInRange(n);
    var d := Gregorian.FromDayNumber(n);
    Gregorian.YearOfDayBetween(d.year, n, 1, U16_LIMIT);
    FromNaiveInCommonEra(d);
  }

  /** For the years 1 to 65535, `from_naive` keeps the date as it is. */
  lemma FromNaiveInCommonEra(d: Gregorian.NaiveDate)
    requires d.Valid() && 1 <= d.year < U16_LIMIT
    ensures FromNaive(d) == (d.year, d.month, d.day)
  {
  }

  /** `add_days` is `from_naive` of the date `days` later. */
  lemma AddDaysIsFromNaive(date: Date, days: u64)
    requires IsValidDate(date)
    requires Gregorian.DayInRange(DayNumberOf(date) + days)
    ensures AddDays(date, days) == FromNaive(Gregorian.FromDayNumberOpt(DayNumberOf(date) + days).value)
  {
    Gregorian.CheckedShiftsOfYmd(date.0, date.1, date.2, days);
    var nd := Gregorian.FromYmdOpt(date.0, date.1, date.2).value;
    assert AddDays(date, days) == FromNaive(nd.CheckedAddDays(days).value);
  }

  /** `subtract_days` is `from_naive` of the date `days` earlier. */
  lemma SubtractDaysIsFromNaive(date: Date, days: u64)
    requires IsValidDate(date)
    requires Gregorian.DayInRange(DayNumberOf(date) - days)
    ensures SubtractDays(date, days) == FromNaive(Gregorian.FromDayNumberOpt(DayNumberOf(date) - days).value)
  {
    Gregorian.CheckedShiftsOfYmd(date.0, date.1, date.2, days);
    var nd := Gregorian.FromYmdOpt(date.0, date.1, date.2).value;
    assert SubtractDays(date, days) == FromNaive(nd.CheckedSubDays(days).value);
  }

  /** `add_days` moves a date `days` days forward in the calendar. */
  lemma AddDaysCountsDays(date: Date, days: u64)
    requires IsValidDate(date) && date.0 >= 1
    requires DayNumberOf(date) + days < Gregorian.DaysBeforeYear(U16_LIMIT)
    ensures Gregorian.DayInRange(DayNumberOf(date) + days)
    ensures IsValidDate(AddDays(date, days)) && AddDays(date, days).0 >= 1
    ensures DayNumberOf(AddDays(date, days)) == DayNumberOf(date) + days
  {
    var n := DayNumberOf(date) + days;
    DayNumberInCommonEra(date);
    assert InCommonEraU16(n);
    FromNaiveOfDayNumber(n);
    AddDaysIsFromNaive(date, days);
  }

  /** `subtract_days` moves a date `days` days back in the calendar. */
  lemma SubtractDaysCountsDays(date: Date, days: u64)
    requires IsValidDate(date) && date.0 >= 1
    requires Gregorian.DaysBeforeYear(1) <= DayNumberOf(date) - days
    ensures Gregorian.DayInRange(DayNumberOf(date) - days)
    ensures IsValidDate(SubtractDays(date, days)) && SubtractDays(date, days).0 >= 1
    ensures DayNumberOf(SubtractDays(date, days)) == DayNumberOf(date) - days
  {
    var n := DayNumberOf(date) - days;
    DayNumberInCommonEra(date);
    assert InCommonEraU16(n);
    FromNaiveOfDayNumber(n);
    SubtractDaysIsFromNaive(date, days);
  }

  /** Two valid triples with the same day number are the same triple. */
  lemma SameDayNumberSameDate(a: Date, b: Date)
    requires IsValidDate(a) && IsValidDate(b)
    requires DayNumberOf(a) == DayNumberOf(b)
    ensures a == b
  {
    Gregorian.NumberInjective(
      Gregorian.NaiveDate(a.0, a.1, a.2), Gregorian.NaiveDate(b.0, b.1, b.2));
  }

  /** Subtracting what was added gives the date back. */
  lemma SubtractDaysUndoesAddDays(date: Date, days: u64)
    requires IsValidDate(date) && date.0 >= 1
    requires DayNumberOf(date) + days < Gregorian.DaysBeforeYear(U16_LIMIT)
    ensures Gregorian.DayInRange(DayNumberOf(date) + days)
    ensures IsValidDate(AddDays(date, days))
    ensures Gregorian.DayInRange(DayNumberOf(AddDays(date, days)) - days)
    ensures SubtractDays(AddDays(date, days), days) == date
  {
    AddDaysCountsDays(date, days);
    var later := AddDays(date, days);
    DayNumberInCommonEra(date);
    assert DayNumberOf(later) - days == DayNumberOf(date);
    SubtractDaysCountsDays(later, days);
    var back := SubtractDays(later, days);
    assert IsValidDate(back) && DayNumberOf(back) == DayNumberOf(date);
    SameDayNumberSameDate(back, date);
  }

  /** Adding what was subtracted gives the date back. */
  lemma AddDaysUndoesSubtractDays(date: Date, days: u64)
    requires IsValidDate(date) && date.0 >= 1
    requires Gregorian.DaysBeforeYear(1) <= DayNumberOf(date) - days
    ensures Gregorian.DayInRange(DayNumberOf(date) - days)
    ensures IsValidDate(SubtractDays(date, days))
    ensures Gregorian.DayInRange(DayNumberOf(SubtractDays(date, days)) + days)
    ensures AddDays(SubtractDays(date, days), days) == date
  {
    SubtractDaysCountsDays(date, days);
    var earlier := SubtractDays(date, days);
    DayNumberInCommonEra(date);
    assert DayNumberOf(earlier) + days == DayNumberOf(date);
    AddDaysCountsDays(earlier, days);
    var back := AddDays(earlier, days);
    assert IsValidDate(back) && DayNumberOf(back) == DayNumberOf(date);
    SameDayNumberSameDate(back, date);
  }

  /** The calendar's next day: the day after, the 1st of the next month, or
      New Year's Day. */
  function NextCalendarDay(date: Date): Date
    requires IsValidDate(date) && date != (65535, 12, 31)
  {
    if date.2 < Gregorian.DaysInMonth(date.0, date.1) then (date.0, date.1, date.2 + 1)
    else if date.1 < 12 then (date.0, date.1 + 1, 1)
    else (date.0 + 1, 1, 1)
  }

  /** The calendar's previous day: the day before, the last day of the
      previous month, or New Year's Eve. */
  function PreviousCalendarDay(date: Date): Date
    requires IsValidDate(date) && date != (0, 1, 1)
  {
    if date.2 > 1 then (date.0, date.1, date.2 - 1)
    else if date.1 > 1 then (date.0, date.1 - 1, Gregorian.DaysInMonth(date.0, date.1 - 1))
    else (date.0 - 1, 12, 31)
  }

  lemma NextCalendarDayIsNext(date: Date)
    requires IsValidDate(date) && date != (65535, 12, 31)
    ensures IsValidDate(NextCalendarDay(date))
    ensures DayNumberOf(NextCalendarDay(date)) == DayNumberOf(date) + 1
  {
    Gregorian.DaysBeforeNextMonth(date.0, date.1);
    if date.1 == 12 {
      Gregorian.DaysBeforeNextYear(date.0);
    }
  }

  lemma PreviousCalendarDayIsPrevious(date: Date)
    requires IsValidDate(date) && date != (0, 1, 1)
    ensures IsValidDate(PreviousCalendarDay(date))
    ensures DayNumberOf(PreviousCalendarDay(date)) == DayNumberOf(date) - 1
  {
    var p := PreviousCalendarDay(date);
    assert IsValidDate(p) && p != (65535, 12, 31);
    NextCalendarDayIsNext(p);
    assert NextCalendarDay(p) == date;
  }

  /** `add_days(1)` steps across month and year ends as the calendar does. */
  lemma AddOneDay(date: Date)
    requires IsValidDate(date) && date.0 >= 1 && date != (65535, 12, 31)
    ensures Gregorian.DayInRange(DayNumberOf(date) + 1)
    ensures AddDays(date, 1) == NextCalendarDay(date)
  {
    NextCalendarDayIsNext(date);
    DayNumberInCommonEra(NextCalendarDay(date));
    AddDaysCountsDays(date, 1);
    SameDayNumberSameDate(AddDays(date, 1), NextCalendarDay(date));
  }

  /** `subtract_days(1)` steps back across month and year starts as the
      calendar does. */
  lemma SubtractOneDay(date: Date)
    requires IsValidDate(date) && date.0 >= 1 && date != (1, 1, 1)
    ensures Gregorian.DayInRange(DayNumberOf(date) - 1)
    ensures SubtractDays(date, 1) == PreviousCalendarDay(date)
  {
    var p := PreviousCalendarDay(date);
    PreviousCalendarDayIsPrevious(date);
    DayNumberInCommonEra(p);
    SubtractDaysCountsDays(date, 1);
    SameDayNumberSameDate(SubtractDays(date, 1), p);
  }

  // ---------------------------------------------------------------------
  // Weekdays
  // ---------------------------------------------------------------------

  /** The inverse of `From<Weekday>`. */
  function ToWeekday(d: DayOfWeek): Gregorian.Weekday {
    match d
    case Sun => Gregorian.Sun
    case Mon => Gregorian.Mon
    case Tue => Gregorian.Tue
    case Wed => Gregorian.Wed
    case Thu => Gregorian.Thu
    case Fri => Gregorian.Fri
    case Sat => Gregorian.Sat
  }

  /** `From<Weekday>` is one-to-one and onto Sun..Sat, and keeps the order
      of the week. */
  lemma FromWeekdayBijective()
    ensures forall w1, w2 :: FromWeekday(w1) == FromWeekday(w2) ==> w1 == w2
    ensures forall d :: FromWeekday(ToWeekday(d)) == d
    ensures forall w :: ToWeekday(FromWeekday(w)) == w
    ensures forall w: Gregorian.Weekday :: FromWeekday(w.Succ()) == FromWeekday(w).Next()
  {
  }

  /** `day_of_week` fails exactly where `from_unchecked` does. */
  lemma DayOfWeekOfFailsLikeFromUnchecked(date: Date)
    ensures DayOfWeekOf(date).Err? <==> FromUnchecked(date).Err?
    ensures DayOfWeekOf(date).Err? ==> DayOfWeekOf(date).error == InvalidDate
  {
  }

  /** 1970-01-01, the POSIX epoch, is a Thursday. */
  lemma EpochIsThursday()
    ensures DayOfWeekOf((1970, 1, 1)) == Ok(Thu)
  {
    Gregorian.EpochIsThursday();
  }

  /** The weekday of the next calendar day is the next weekday. */
  lemma DayOfWeekOfNextDay(date: Date)
    requires IsValidDate(date) && date != (65535, 12, 31)
    ensures DayOfWeekOf(date).Ok? && DayOfWeekOf(NextCalendarDay(date)).Ok?
    ensures DayOfWeekOf(NextCalendarDay(date)).value == DayOfWeekOf(date).value.Next()
  {
    var next := NextCalendarDay(date);
    NextCalendarDayIsNext(date);
    Gregorian.WeekdayOfNextDay(
      Gregorian.NaiveDate(date.0, date.1, date.2), Gregorian.NaiveDate(next.0, next.1, next.2));
  }

  /** Two valid dates a whole number of weeks apart fall on the same weekday. */
  lemma DayOfWeekOfWeeksApart(a: Date, b: Date, weeks: int)
    requires IsValidDate(a) && IsValidDate(b)
    requires DayNumberOf(b) == DayNumberOf(a) + 7 * weeks
    ensures DayOfWeekOf(a).Ok? && DayOfWeekOf(b) == DayOfWeekOf(a)
  {
    Gregorian.WeekdayPeriodic(
      Gregorian.NaiveDate(a.0, a.1, a.2), Gregorian.NaiveDate(b.0, b.1, b.2), weeks);
  }

  /** Two valid dates fall on the same weekday exactly when they are a whole
      number of weeks apart. */
  lemma SameDayOfWeekIffWeeksApart(a: Date, b: Date)
    requires IsValidDate(a) && IsValidDate(b)
    ensures DayOfWeekOf(a).Ok? && DayOfWeekOf(b).Ok?
    ensures DayOfWeekOf(a) == DayOfWeekOf(b) <==> (DayNumberOf(b) - DayNumberOf(a)) % 7 == 0
  {
    Gregorian.WeekdayOfNumberEqual(DayNumberOf(b), DayNumberOf(a));
    FromWeekdayBijective();
  }

  /** Adding or subtracting a week keeps the weekday. */
  lemma WeekLaterSameDayOfWeek(date: Date)
    requires IsValidDate(date) && date.0 >= 1
    requires DayNumberOf(date) + 7 < Gregorian.DaysBeforeYear(U16_LIMIT)
    ensures Gregorian.DayInRange(DayNumberOf(date) + 7)
    ensures DayOfWeekOf(AddDays(date, 7)) == DayOfWeekOf(date)
  {
    AddDaysCountsDays(date, 7);
    DayOfWeekOfWeeksApart(date, AddDays(date, 7), 1);
  }

  lemma WeekEarlierSameDayOfWeek(date: Date)
    requires IsValidDate(date) && date.0 >= 1
    requires Gregorian.DaysBeforeYear(1) <= DayNumberOf(date) - 7
    ensures Gregorian.DayInRange(DayNumberOf(date) - 7)
    ensures DayOfWeekOf(SubtractDays(date, 7)) == DayOfWeekOf(date)
  {
    SubtractDaysCountsDays(date, 7);
    DayOfWeekOfWeeksApart(SubtractDays(date, 7), date, 1);
  }

  // ---------------------------------------------------------------------
  // Timestamps
  // ---------------------------------------------------------------------

  /** Dividing by 1000 and then by 86400 is dividing by 86400000. */
  lemma DayOfMillis(timestampMillis: nat)
    ensures timestampMillis / MS_PER_SECOND / Gregorian.SECONDS_PER_DAY == timestampMillis / MS_PER_DAY
  {
    var q, r := timestampMillis / MS_PER_DAY, timestampMillis % MS_PER_DAY;
    assert timestampMillis == MS_PER_DAY * q + r;
    assert timestampMillis / MS_PER_SECOND == Gregorian.SECONDS_PER_DAY * q + r / MS_PER_SECOND;
  }

  /** `from_timestamp` gives the UTC date of the timestamp's day: the date
      numbered `timestamp / 86400000` days after 1970-01-01. Up to year
      65535 it is a valid triple that `from_unchecked` keeps unchanged. */
  lemma FromTimestampIsUtcDay(timestampMillis: u64)
    requires Gregorian.EPOCH_DAY + timestampMillis / MS_PER_DAY < Gregorian.DaysBeforeYear(U16_LIMIT)
    ensures SupportedTimestamp(timestampMillis)
    ensures IsValidDate(FromTimestamp(timestampMillis)) && FromTimestamp(timestampMillis).0 >= 1
    ensures DayNumberOf(FromTimestamp(timestampMillis)) == Gregorian.EPOCH_DAY + timestampMillis / MS_PER_DAY
    ensures FromUnchecked(FromTimestamp(timestampMillis)) == Ok(FromTimestamp(timestampMillis))
  {
    DayOfMillis(timestampMillis);
    var n := Gregorian.EPOCH_DAY + timestampMillis / MS_PER_DAY;
    Gregorian.DaysBeforeYearGrows(1, 1970);
    FromNaiveOfDayNumber(n);
    var today := FromTimestamp(timestampMillis);
    FromUncheckedKeepsCommonEraDates(today);
  }

  /** All timestamps of one UTC day give the same date. */
  lemma FromTimestampSameDay(t1: u64, t2: u64)
    requires SupportedTimestamp(t1)
    requires t1 / MS_PER_DAY == t2 / MS_PER_DAY
    ensures SupportedTimestamp(t2)
    ensures FromTimestamp(t1) == FromTimestamp(t2)
  {
    DayOfMillis(t1);
    DayOfMillis(t2);
  }
}
