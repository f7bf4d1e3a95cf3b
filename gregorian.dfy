/** The proleptic Gregorian calendar (ISO 8601:2004, clause 3.2.1) that the
    contract's date helpers obtain from the `chrono` crate: `NaiveDate`, its
    range, `from_ymd_opt`, `weekday`, `year_ce`, `checked_add_days`,
    `checked_sub_days`, and the date part of `NaiveDateTime::from_timestamp_opt`.
    The arithmetic is re-derived here from the calendar itself: every date is
    numbered by the days elapsed since 0000-01-01, and conversions go through
    that number. */
module Gregorian {
  import opened Wrappers

  /** The year range of chrono's `NaiveDate` (`i32::MIN >> 13` to `i32::MAX >> 13`). */
  const MIN_YEAR: int := -262144
  const MAX_YEAR: int := 262143

  /** Day number of 1970-01-01, the epoch of POSIX time (a Thursday). */
  const EPOCH_DAY: int := 719528
  const SECONDS_PER_DAY: int := 86400

  predicate IsLeapYear(y: int) {
    y % 4 == 0 && (y % 100 != 0 || y % 400 == 0)
  }

  function DaysInYear(y: int): int {
    if IsLeapYear(y) then 366 else 365
  }

  function DaysInMonth(y: int, m: int): int
    requires 1 <= m <= 12
  {
    if m == 2 then (if IsLeapYear(y) then 29 else 28)
    else if m == 4 || m == 6 || m == 9 || m == 11 then 30
    else 31
  }

  /** A real calendar day: month 1-12 and day 1 up to the month's length. */
  predicate IsCivil(y: int, m: int, d: int) {
    1 <= m <= 12 && 1 <= d <= DaysInMonth(y, m)
  }

  predicate InYearRange(y: int) {
    MIN_YEAR <= y <= MAX_YEAR
  }

  /** Days from 0000-01-01 to January 1st of year `y`: 365 per year plus one
      per leap year before `y` (every fourth year, except centuries that are
      not multiples of 400). `/` is floor division here, so this holds for
      years before 0 as well. */
  function DaysBeforeYear(y: int): int {
    365 * y + (y + 3) / 4 - (y + 99) / 100 + (y + 399) / 400
  }

  /** Days from January 1st to the first of month `m` (13 stands for the
      first day of the next year). */
  function DaysBeforeMonth(y: int, m: int): int
    requires 1 <= m <= 13
  {
    var leap := if IsLeapYear(y) && m > 2 then 1 else 0;
    leap + match m
      case 1 => 0
      case 2 => 31
      case 3 => 59
      case 4 => 90
      case 5 => 120
      case 6 => 151
      case 7 => 181
      case 8 => 212
      case 9 => 243
      case 10 => 273
      case 11 => 304
      case 12 => 334
      case _ => 365
  }

  /** Number of the day (y, m, d) counted from 0000-01-01 = 0. */
  function DayNumber(y: int, m: int, d: int): int
    requires 1 <= m <= 12
  {
    DaysBeforeYear(y) + DaysBeforeMonth(y, m) + d - 1
  }

  /** chrono's `Weekday`, in its own declaration order. */
  datatype Weekday = Mon | Tue | Wed | Thu | Fri | Sat | Sun {
    function Succ(): Weekday {
      match this
      case Mon => Tue
      case Tue => Wed
      case Wed => Thu
      case Thu => Fri
      case Fri => Sat
      case Sat => Sun
      case Sun => Mon
    }
  }

  /** The weekday of the day numbered `n`, counted from the POSIX epoch, a
      Thursday. */
  function WeekdayOfNumber(n: int): Weekday {
    [Mon, Tue, Wed, Thu, Fri, Sat, Sun][(n - EPOCH_DAY + 3) % 7]
  }

  /** chrono's `NaiveDate`. Only `Valid` values are ever built. */
  datatype NaiveDate = NaiveDate(year: int, month: int, day: int) {
    predicate Civil() {
      IsCivil(year, month, day)
    }

    predicate Valid() {
      InYearRange(year) && Civil()
    }

    function Number(): int
      requires Civil()
    {
      DayNumber(year, month, day)
    }

    /** `year_ce`: the year of the Common Era, with years 0, -1, ... read as
        1, 2, ... BCE. */
    function YearCe(): (bool, int) {
      if year >= 1 then (true, year) else (false, 1 - year)
    }

    function Month0(): int {
      month - 1
    }

    function Day0(): int {
      day - 1
    }

    /** `weekday`. */
    function WeekdayOf(): Weekday
      requires Civil()
    {
      WeekdayOfNumber(Number())
    }

    function CheckedAddDays(days: nat): Option<NaiveDate>
      requires Valid()
    {
      FromDayNumberOpt(Number() + days)
    }

    function CheckedSubDays(days: nat): Option<NaiveDate>
      requires Valid()
    {
      FromDayNumberOpt(Number() - days)
    }
  }

  /** `NaiveDate::from_ymd_opt`. */
  function FromYmdOpt(y: int, m: int, d: int): (r: Option<NaiveDate>)
    ensures r.Some? <==> InYearRange(y) && IsCivil(y, m, d)
    ensures r.Some? ==> r.value == NaiveDate(y, m, d) && r.value.Valid()
  {
    if InYearRange(y) && IsCivil(y, m, d) then Some(NaiveDate(y, m, d)) else None
  }

  /** Shifting a date built by `from_ymd_opt` lands on the date whose day
      number is shifted by the same amount. */
  lemma CheckedShiftsOfYmd(y: int, m: int, d: int, days: nat)
    requires InYearRange(y) && IsCivil(y, m, d)
    ensures FromYmdOpt(y, m, d).Some?
    ensures FromYmdOpt(y, m, d).value.CheckedAddDays(days) == FromDayNumberOpt(DayNumber(y, m, d) + days)
    ensures FromYmdOpt(y, m, d).value.CheckedSubDays(days) == FromDayNumberOpt(DayNumber(y, m, d) - days)
  {
    var nd := NaiveDate(y, m, d);
    assert FromYmdOpt(y, m, d).value == nd;
    assert nd.Number() == DayNumber(y, m, d);
  }

  /** Day numbers of the dates chrono can represent. */
  predicate DayInRange(n: int) {
    DaysBeforeYear(MIN_YEAR) <= n < DaysBeforeYear(MAX_YEAR + 1)
  }

  /** The date numbered `n`, or None outside chrono's range. */
  function FromDayNumberOpt(n: int): (r: Option<NaiveDate>)
    ensures r.Some? <==> DayInRange(n)
    ensures r.Some? ==> r.value.Valid() && r.value.Number() == n
  {
    if DayInRange(n) then
      var d := FromDayNumber(n);
      YearOfDayNumberInRange(n);
      Some(d)
    else
      None
  }

  /** The date part of `NaiveDateTime::from_timestamp_opt(secs, 0)`: the UTC
      day `secs` seconds after the epoch, rounding towards minus infinity. */
  function FromTimestampOpt(secs: int): Option<NaiveDate> {
    FromDayNumberOpt(EPOCH_DAY + secs / SECONDS_PER_DAY)
  }

  // ---------------------------------------------------------------------
  // From a day number back to (year, month, day)
  // ---------------------------------------------------------------------

  /** Each 400-year cycle holds exactly 146097 days. */
  lemma CycleStart(q: int)
    ensures DaysBeforeYear(400 * q) == 146097 * q
  {
    assert (400 * q + 3) / 4 == 100 * q;
    assert (400 * q + 99) / 100 == 4 * q;
    assert (400 * q + 399) / 400 == q;
  }

  /** The month holding day `doy` (counted from 0) of year `y`, searched
      upwards from `m`. */
  function FindMonth(y: int, doy: int, m: int): (r: int)
    requires 1 <= m <= 12
    requires DaysBeforeMonth(y, m) <= doy < DaysInYear(y)
    ensures m <= r <= 12
    ensures DaysBeforeMonth(y, r) <= doy < DaysBeforeMonth(y, r + 1)
    decreases 12 - m
  {
    if doy < DaysBeforeMonth(y, m + 1) then m else FindMonth(y, doy, m + 1)
  }

  /** The calendar date numbered `n`, found by searching upwards from year
      `y` for its year and then for its month. */
  function FindDate(n: int, y: int): (d: NaiveDate)
    requires DaysBeforeYear(y) <= n
    ensures d.Civil()
    ensures d.Number() == n
    decreases n - DaysBeforeYear(y)
  {
    DaysBeforeNextYear(y);
    if n < DaysBeforeYear(y + 1) then
      var doy := n - DaysBeforeYear(y);
      var m := FindMonth(y, doy, 1);
      DaysBeforeNextMonth(y, m);
      NaiveDate(y, m, doy - DaysBeforeMonth(y, m) + 1)
    else
      FindDate(n, y + 1)
  }

  /** The calendar date numbered `n`; the search starts at its 400-year
      cycle. */
  function DateSearch(n: int): (d: NaiveDate)
    ensures d.Civil()
    ensures d.Number() == n
  {
    var q := n / 146097;
    CycleStart(q);
    FindDate(n, 400 * q)
  }

  /** Every day number names a date, and only one. */
  lemma DayNumberNamesOneDate(n: int)
    ensures exists d: NaiveDate :: d.Civil() && d.Number() == n
    ensures forall a: NaiveDate, b: NaiveDate :: a.Civil() && b.Civil() && a.Number() == n && b.Number() == n ==> a == b
  {
    var d := DateSearch(n);
    forall a: NaiveDate, b: NaiveDate | a.Civil() && b.Civil() && a.Number() == n && b.Number() == n
      ensures a == b
    {
      NumberInjective(a, b);
    }
  }

  /** The date `:|` picks is the one the search computes. */
  lemma FromDayNumberIsSearch(n: int)
    ensures FromDayNumber(n) == DateSearch(n)
  {
    DayNumberNamesOneDate(n);
  }

  /** The calendar date numbered `n`. */
  function FromDayNumber(n: int): (d: NaiveDate)
    ensures d.Civil()
    ensures d.Number() == n
    ensures DaysBeforeYear(d.year) <= n < DaysBeforeYear(d.year + 1)
  {
    DayNumberNamesOneDate(n);
    var d: NaiveDate :| d.Civil() && d.Number() == n;
    DayNumberWithinYear(d);
    d
  }

  // ---------------------------------------------------------------------
  // Properties of the numbering
  // ---------------------------------------------------------------------

  /** Year `y` contributes exactly its own length to the count. */
  lemma DaysBeforeNextYear(y: int)
    ensures DaysBeforeYear(y + 1) == DaysBeforeYear(y) + DaysInYear(y)
  {
    CountStep(y, 4);
    CountStep(y, 100);
    CountStep(y, 400);
    var c4, c100, c400 := (y + 4) / 4 - (y + 3) / 4, (y + 100) / 100 - (y + 99) / 100, (y + 400) / 400 - (y + 399) / 400;
    assert DaysBeforeYear(y + 1) == DaysBeforeYear(y) + 365 + c4 - c100 + c400;
    DivisibilityChain(y);
  }

  /** Multiples of 400 are multiples of 100, and those are multiples of 4. */
  lemma DivisibilityChain(y: int)
    ensures y % 400 == 0 ==> y % 100 == 0
    ensures y % 100 == 0 ==> y % 4 == 0
  {
    var q400, q100 := y / 400, y / 100;
    assert y == 400 * q400 + y % 400;
    assert y == 100 * q100 + y % 100;
    if y % 400 == 0 {
      var k := 4 * q400;
      assert y == 100 * k;
      assert y / 100 == k;
    }
    if y % 100 == 0 {
      var k := 25 * q100;
      assert y == 4 * k;
      assert y / 4 == k;
    }
  }

  /** The count of multiples of `k` grows by one exactly at a multiple of `k`. */
  lemma CountStep(y: int, k: int)
    requires k == 4 || k == 100 || k == 400
    ensures (y + k) / k == (y + k - 1) / k + (if y % k == 0 then 1 else 0)
  {
    var q, r := y / k, y % k;
    assert y == k * q + r;
    assert (y + k) / k == q + 1;
    if r == 0 {
      assert (y + k - 1) / k == q;
    } else {
      assert (y + k - 1) / k == q + 1;
    }
  }

  lemma DaysBeforeNextMonth(y: int, m: int)
    requires 1 <= m <= 12
    ensures DaysBeforeMonth(y, m + 1) == DaysBeforeMonth(y, m) + DaysInMonth(y, m)
  {
  }

  lemma {:induction false} DaysBeforeMonthGrows(y: int, m1: int, m2: int)
    requires 1 <= m1 <= m2 <= 13
    ensures DaysBeforeMonth(y, m1) <= DaysBeforeMonth(y, m2)
    decreases m2 - m1
  {
    if m1 < m2 {
      DaysBeforeNextMonth(y, m1);
      DaysBeforeMonthGrows(y, m1 + 1, m2);
    }
  }

  /** Later years start at least 365 days per year later. */
  lemma {:induction false} DaysBeforeYearGrows(a: int, b: int)
    requires a <= b
    ensures DaysBeforeYear(a) + 365 * (b - a) <= DaysBeforeYear(b)
    decreases b - a
  {
    if a < b {
      DaysBeforeYearGrows(a, b - 1);
      DaysBeforeNextYear(b - 1);
    }
  }

  /** A date's number lies inside its own year. */
  lemma DayNumberWithinYear(d: NaiveDate)
    requires d.Civil()
    ensures DaysBeforeYear(d.year) <= d.Number() < DaysBeforeYear(d.year + 1)
  {
    DaysBeforeNextYear(d.year);
    DaysBeforeNextMonth(d.year, d.month);
    DaysBeforeMonthGrows(d.year, d.month + 1, 13);
  }

  /** `FromDayNumber` stays within chrono's range exactly for the numbers
      `DayInRange` admits. */
  lemma YearOfDayNumberInRange(n: int)
    ensures InYearRange(FromDayNumber(n).year) <==> DayInRange(n)
  {
    YearInRangeIff(FromDayNumber(n).year, n);
  }

  /** Within chrono's range, the optional conversion is the plain one. */
  lemma FromDayNumberOptInRange(n: int)
    requires DayInRange(n)
    ensures FromDayNumberOpt(n) == Some(FromDayNumber(n))
  {
  }

  /** A day numbered between the starts of years `lo` and `hi` belongs to
      one of the years `lo` to `hi - 1`. */
  lemma YearOfDayBetween(y: int, n: int, lo: int, hi: int)
    requires DaysBeforeYear(y) <= n < DaysBeforeYear(y + 1)
    requires DaysBeforeYear(lo) <= n < DaysBeforeYear(hi)
    ensures lo <= y < hi
  {
    if y < lo {
      DaysBeforeYearGrows(y + 1, lo);
    } else if y >= hi {
      DaysBeforeYearGrows(hi, y);
    }
  }

  /** For the day `n` of year `y`: `y` is in chrono's range exactly when `n` is. */
  lemma YearInRangeIff(y: int, n: int)
    requires DaysBeforeYear(y) <= n < DaysBeforeYear(y + 1)
    ensures InYearRange(y) <==> DayInRange(n)
  {
    if y < MIN_YEAR {
      DaysBeforeYearGrows(y + 1, MIN_YEAR);
    } else if y > MAX_YEAR {
      DaysBeforeYearGrows(MAX_YEAR + 1, y);
    } else {
      DaysBeforeYearGrows(MIN_YEAR, y);
      DaysBeforeYearGrows(y + 1, MAX_YEAR + 1);
    }
  }

  /** Calendar order: by year, then month, then day. */
  predicate Precedes(a: NaiveDate, b: NaiveDate) {
    || a.year < b.year
    || (a.year == b.year && a.month < b.month)
    || (a.year == b.year && a.month == b.month && a.day < b.day)
  }

  lemma PrecedesHasSmallerNumber(a: NaiveDate, b: NaiveDate)
    requires a.Civil() && b.Civil()
    requires Precedes(a, b)
    ensures a.Number() < b.Number()
  {
    if a.year < b.year {
      DayNumberWithinYear(a);
      DayNumberWithinYear(b);
      DaysBeforeYearGrows(a.year + 1, b.year);
    } else if a.month < b.month {
      DaysBeforeNextMonth(a.year, a.month);
      DaysBeforeMonthGrows(a.year, a.month + 1, b.month);
    }
  }

  /** The numbering orders dates exactly as the calendar does. */
  lemma NumberOrderIsCalendarOrder(a: NaiveDate, b: NaiveDate)
    requires a.Civil() && b.Civil()
    ensures a.Number() < b.Number() <==> Precedes(a, b)
  {
    if Precedes(a, b) {
      PrecedesHasSmallerNumber(a, b);
    } else if a != b {
      PrecedesHasSmallerNumber(b, a);
    }
  }

  /** Distinct dates have distinct numbers. */
  lemma NumberInjective(a: NaiveDate, b: NaiveDate)
    requires a.Civil() && b.Civil()
    requires a.Number() == b.Number()
    ensures a == b
  {
    NumberOrderIsCalendarOrder(a, b);
    NumberOrderIsCalendarOrder(b, a);
  }

  /** Numbering a date and converting back gives the date again. */
  lemma FromDayNumberOfNumber(d: NaiveDate)
    requires d.Civil()
    ensures FromDayNumber(d.Number()) == d
  {
    NumberInjective(FromDayNumber(d.Number()), d);
  }

  /** 1970-01-01 is numbered `EPOCH_DAY` and is a Thursday. */
  lemma EpochIsThursday()
    ensures NaiveDate(1970, 1, 1).Civil()
    ensures NaiveDate(1970, 1, 1).Number() == EPOCH_DAY
    ensures NaiveDate(1970, 1, 1).WeekdayOf() == Thu
  {
  }

  /** The weekday advances by one from each day to the next. */
  lemma WeekdayOfNextDay(a: NaiveDate, b: NaiveDate)
    requires a.Civil() && b.Civil()
    requires b.Number() == a.Number() + 1
    ensures b.WeekdayOf() == a.WeekdayOf().Succ()
  {
    WeekdayOfNextNumber(a.Number());
  }

  lemma WeekdayOfNextNumber(n: int)
    ensures WeekdayOfNumber(n + 1) == WeekdayOfNumber(n).Succ()
  {
    var x := n - EPOCH_DAY + 3;
    assert (x + 1) % 7 == if x % 7 == 6 then 0 else x % 7 + 1;
  }

  /** Dates a whole number of weeks apart share their weekday. */
  lemma WeekdayPeriodic(a: NaiveDate, b: NaiveDate, weeks: int)
    requires a.Civil() && b.Civil()
    requires b.Number() == a.Number() + 7 * weeks
    ensures b.WeekdayOf() == a.WeekdayOf()
  {
    WeekdayOfShiftedNumber(a.Number(), weeks);
  }

  /** Two days fall on the same weekday exactly when they are a whole number
      of weeks apart. */
  lemma WeekdayOfNumberEqual(n: int, m: int)
    ensures WeekdayOfNumber(n) == WeekdayOfNumber(m) <==> (n - m) % 7 == 0
  {
    var x, y := (n - EPOCH_DAY + 3) % 7, (m - EPOCH_DAY + 3) % 7;
    assert (n - m) % 7 == 0 <==> x == y;
  }

  lemma WeekdayOfShiftedNumber(n: int, weeks: int)
    ensures WeekdayOfNumber(n + 7 * weeks) == WeekdayOfNumber(n)
  {
    var x := n - EPOCH_DAY + 3;
    assert (x + 7 * weeks) % 7 == x % 7;
  }
}
