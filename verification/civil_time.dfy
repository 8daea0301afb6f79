/** Proleptic Gregorian civil time, as Python's datetime counts it: dates
    from 0001-01-01 (day number 0, a Monday), times of day in whole seconds
    plus microseconds, and a fixed UTC offset for timezone-aware values. */
module CivilTime {

  datatype Date = Date(year: int, month: int, day: int)

  predicate IsLeapYear(y: int)
  {
    y % 4 == 0 && (y % 100 != 0 || y % 400 == 0)
  }

  function DaysInMonth(y: int, m: int): int
  {
    if m == 2 then (if IsLeapYear(y) then 29 else 28)
    else if m == 4 || m == 6 || m == 9 || m == 11 then 30
    else 31
  }

  function YearLength(y: int): int
  {
    if IsLeapYear(y) then 366 else 365
  }

  predicate ValidDate(d: Date)
  {
    1 <= d.year && 1 <= d.month <= 12 && 1 <= d.day <= DaysInMonth(d.year, d.month)
  }

  /** The calendar day after d (datetime + timedelta(days=1)). */
  function NextDay(d: Date): (r: Date)
    requires ValidDate(d)
    ensures ValidDate(r)
    ensures r.year == d.year || (r.year == d.year + 1 && r.month == 1 && r.day == 1)
  {
    if d.day < DaysInMonth(d.year, d.month) then Date(d.year, d.month, d.day + 1)
    else if d.month < 12 then Date(d.year, d.month + 1, 1)
    else Date(d.year + 1, 1, 1)
  }

  /** Days in the years 1 .. y-1. */
  function DaysBeforeYear(y: int): nat
    requires y >= 1
    decreases y
  {
    if y == 1 then 0 else DaysBeforeYear(y - 1) + YearLength(y - 1)
  }

  /** Days in the months 1 .. m-1 of year y. */
  function DaysBeforeMonth(y: int, m: int): nat
    requires 1 <= m <= 13
    decreases m
  {
    if m == 1 then 0 else DaysBeforeMonth(y, m - 1) + DaysInMonth(y, m - 1)
  }

  /** Days since 0001-01-01. */
  function DayNumber(d: Date): int
    requires ValidDate(d)
  {
    DaysBeforeYear(d.year) + DaysBeforeMonth(d.year, d.month) + d.day - 1
  }

  lemma WholeYear(y: int)
    ensures DaysBeforeMonth(y, 13) == YearLength(y)
  {
    assert DaysBeforeMonth(y, 2) == 31;
    assert DaysBeforeMonth(y, 3) == 31 + DaysInMonth(y, 2);
    assert DaysBeforeMonth(y, 7) == DaysBeforeMonth(y, 3) + 31 + 30 + 31 + 30;
    assert DaysBeforeMonth(y, 13) == DaysBeforeMonth(y, 7) + 31 + 31 + 30 + 31 + 30 + 31;
  }

  /** NextDay is one day later on the day-number scale. */
  lemma NextDayNumber(d: Date)
    requires ValidDate(d)
    ensures DayNumber(NextDay(d)) == DayNumber(d) + 1
  {
    if d.day == DaysInMonth(d.year, d.month) && d.month == 12 {
      WholeYear(d.year);
    }
  }

  lemma {:induction false} DaysBeforeMonthGrows(y: int, m: int, m': int)
    requires 1 <= m <= m' <= 13
    ensures DaysBeforeMonth(y, m) + (m' - m) * 28 <= DaysBeforeMonth(y, m')
    decreases m' - m
  {
    if m < m' {
      DaysBeforeMonthGrows(y, m, m' - 1);
    }
  }

  lemma {:induction false} DaysBeforeYearGrows(y: int, y': int)
    requires 1 <= y <= y'
    ensures DaysBeforeYear(y) + (y' - y) * 365 <= DaysBeforeYear(y')
    decreases y' - y
  {
    if y < y' {
      DaysBeforeYearGrows(y, y' - 1);
    }
  }

  /** A day number lies inside its own year and month. */
  lemma DayNumberBounds(d: Date)
    requires ValidDate(d)
    ensures DaysBeforeYear(d.year) <= DayNumber(d) < DaysBeforeYear(d.year + 1)
    ensures DaysBeforeMonth(d.year, d.month) + d.day - 1 < DaysBeforeMonth(d.year, d.month + 1)
  {
    DaysBeforeMonthGrows(d.year, d.month + 1, 13);
    WholeYear(d.year);
  }

  predicate DateBefore(a: Date, b: Date)
  {
    a.year < b.year
    || (a.year == b.year && a.month < b.month)
    || (a.year == b.year && a.month == b.month && a.day < b.day)
  }

  /** Day numbers follow calendar order. */
  lemma DayNumberMonotone(a: Date, b: Date)
    requires ValidDate(a) && ValidDate(b) && DateBefore(a, b)
    ensures DayNumber(a) < DayNumber(b)
  {
    DayNumberBounds(a);
    if a.year < b.year {
      DaysBeforeYearGrows(a.year + 1, b.year);
    } else if a.month < b.month {
      DaysBeforeMonthGrows(a.year, a.month + 1, b.month);
    }
  }

  /** Distinct valid dates have distinct day numbers. */
  lemma DayNumberInjective(a: Date, b: Date)
    requires ValidDate(a) && ValidDate(b) && DayNumber(a) == DayNumber(b)
    ensures a == b
  {
    if DateBefore(a, b) {
      DayNumberMonotone(a, b);
    } else if DateBefore(b, a) {
      DayNumberMonotone(b, a);
    }
  }

  /** Day of the week, Monday = 0 (datetime.weekday()). */
  function Weekday(d: Date): (w: int)
    requires ValidDate(d)
    ensures 0 <= w < 7
  {
    DayNumber(d) % 7
  }

  const SecondsPerDay: int := 86400

  /** A timezone-aware timestamp: local date and second of day, microseconds,
      and the UTC offset in seconds. */
  datatype Instant = Instant(date: Date, second: int, micro: int, offset: int)

  predicate ValidInstant(t: Instant)
  {
    ValidDate(t.date) && 0 <= t.second < SecondsPerDay && 0 <= t.micro < 1000000
  }

  /** Whole local seconds since 0001-01-01 00:00:00 in the instant's own zone. */
  function LocalSeconds(t: Instant): int
    requires ValidInstant(t)
  {
    DayNumber(t.date) * SecondsPerDay + t.second
  }

  /** Position on the UTC time line, in microseconds; pandas compares and
      subtracts aware timestamps on this line. */
  function UtcMicros(t: Instant): int
    requires ValidInstant(t)
  {
    (LocalSeconds(t) - t.offset) * 1000000 + t.micro
  }

  /** (b - a).total_seconds() */
  function SecondsBetween(a: Instant, b: Instant): real
    requires ValidInstant(a) && ValidInstant(b)
  {
    (UtcMicros(b) - UtcMicros(a)) as real / 1000000.0
  }

  /** A naive datetime with whole seconds (what strptime returns). */
  datatype DateTime = DateTime(date: Date, second: int)

  predicate ValidDateTime(t: DateTime)
  {
    ValidDate(t.date) && 0 <= t.second < SecondsPerDay
  }

  /** Seconds since 0001-01-01 00:00:00; naive datetimes compare by it. */
  function WallSeconds(t: DateTime): int
    requires ValidDateTime(t)
  {
    DayNumber(t.date) * SecondsPerDay + t.second
  }

  /** Hour of the day of an aware timestamp, in its own zone (.dt.hour). */
  function Hour(t: Instant): (h: int)
    requires ValidInstant(t)
    ensures 0 <= h < 24
  {
    t.second / 3600
  }
}
