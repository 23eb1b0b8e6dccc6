/** The calendar fields pandas' `.dt` accessor derives from a naive
    timestamp: year, month, day of week (Monday = 0) and hour. A timestamp is
    a whole number of seconds since 1970-01-01 00:00:00 in the proleptic
    Gregorian calendar; times before the epoch are negative. */
module Calendar {

  const SecondsPerDay: int := 86400
  const SecondsPerHour: int := 3600

  /** 1970-01-01 was a Thursday, which pandas numbers 3 (Monday is 0). */
  const EpochDayOfWeek: int := 3

  predicate IsLeapYear(y: int)
  {
    y % 4 == 0 && (y % 100 != 0 || y % 400 == 0)
  }

  function DaysInYear(y: int): int
  {
    if IsLeapYear(y) then 366 else 365
  }

  function DaysInMonth(y: int, m: int): int
    requires 1 <= m <= 12
  {
    if m == 2 then (if IsLeapYear(y) then 29 else 28)
    else if m == 4 || m == 6 || m == 9 || m == 11 then 30
    else 31
  }

  /** Days of year `y` that precede the first of month `m`; month 13 stands
      for the first day of the following year. */
  function DaysBeforeMonth(y: int, m: int): int
    requires 1 <= m <= 13
  {
    var common := [0, 31, 59, 90, 120, 151, 181, 212, 243, 273, 304, 334, 365];
    common[m - 1] + (if IsLeapYear(y) && m > 2 then 1 else 0)
  }

  /** The cumulative table agrees with the month lengths and the year length. */
  lemma MonthTable(y: int, m: int)
    requires 1 <= m <= 12
    ensures DaysBeforeMonth(y, m + 1) == DaysBeforeMonth(y, m) + DaysInMonth(y, m)
    ensures DaysBeforeMonth(y, 13) == DaysInYear(y)
  {
  }

  lemma MonthTableMonotone(y: int, m: int, m': int)
    requires 1 <= m < m' <= 13
    ensures DaysBeforeMonth(y, m) < DaysBeforeMonth(y, m')
  {
  }

  /** Days from 1970-01-01 to the first of January of year `y`. */
  function DaysBeforeYear(y: int): int
    decreases if y < 1970 then 1970 - y else y - 1970
  {
    if y == 1970 then 0
    else if y > 1970 then DaysBeforeYear(y - 1) + DaysInYear(y - 1)
    else DaysBeforeYear(y + 1) - DaysInYear(y)
  }

  lemma DaysBeforeNextYear(y: int)
    ensures DaysBeforeYear(y + 1) == DaysBeforeYear(y) + DaysInYear(y)
  {
  }

  /** Years start in order: the whole of an earlier year precedes a later one. */
  lemma {:induction false} DaysBeforeYearMonotone(a: int, b: int)
    requires a < b
    ensures DaysBeforeYear(a) + DaysInYear(a) <= DaysBeforeYear(b)
    decreases b - a
  {
    DaysBeforeNextYear(a);
    if a + 1 < b {
      DaysBeforeYearMonotone(a + 1, b);
    }
  }

  datatype Date = Date(year: int, month: int, day: int)

  predicate ValidDate(d: Date)
  {
    1 <= d.month <= 12 && 1 <= d.day <= DaysInMonth(d.year, d.month)
  }

  /** Days since 1970-01-01 of a calendar date. */
  function DayNumber(d: Date): int
    requires ValidDate(d)
  {
    DaysBeforeYear(d.year) + DaysBeforeMonth(d.year, d.month) + d.day - 1
  }

  /** Walks from year `y` to the year holding the day `d` days after the
      first of January of `y`; returns that year and the day's offset in it. */
  function LocateYear(y: int, d: int): (r: (int, int))
    ensures 0 <= r.1 < DaysInYear(r.0)
    ensures DaysBeforeYear(r.0) + r.1 == DaysBeforeYear(y) + d
    decreases if d < 0 then 1 else 0, if d < 0 then -d else d
  {
    DaysBeforeNextYear(y - 1);
    DaysBeforeNextYear(y);
    if d < 0 then LocateYear(y - 1, d + DaysInYear(y - 1))
    else if d < DaysInYear(y) then (y, d)
    else LocateYear(y + 1, d - DaysInYear(y))
  }

  /** The month of year `y` holding day-of-year `doy`, searching from `m`. */
  function LocateMonth(y: int, doy: int, m: int): (r: int)
    requires 1 <= m <= 12
    requires DaysBeforeMonth(y, m) <= doy < DaysInYear(y)
    ensures m <= r <= 12
    ensures DaysBeforeMonth(y, r) <= doy < DaysBeforeMonth(y, r + 1)
    decreases 12 - m
  {
    MonthTable(y, m);
    if m == 12 || doy < DaysBeforeMonth(y, m + 1) then m
    else LocateMonth(y, doy, m + 1)
  }

  /** The calendar date of the day `n` days after 1970-01-01. */
  function DateOf(n: int): (d: Date)
    ensures ValidDate(d)
    ensures DayNumber(d) == n
  {
    var (y, doy) := LocateYear(1970, n);
    var m := LocateMonth(y, doy, 1);
    MonthTable(y, m);
    Date(y, m, doy - DaysBeforeMonth(y, m) + 1)
  }

  /** Two (year, day-of-year) positions naming the same day are equal. */
  lemma YearPositionUnique(y1: int, o1: int, y2: int, o2: int)
    requires 0 <= o1 < DaysInYear(y1) && 0 <= o2 < DaysInYear(y2)
    requires DaysBeforeYear(y1) + o1 == DaysBeforeYear(y2) + o2
    ensures y1 == y2 && o1 == o2
  {
    if y1 < y2 {
      DaysBeforeYearMonotone(y1, y2);
    } else if y2 < y1 {
      DaysBeforeYearMonotone(y2, y1);
    }
  }

  /** Every calendar date is recovered from its day number. */
  lemma DateOfDayNumber(d: Date)
    requires ValidDate(d)
    ensures DateOf(DayNumber(d)) == d
  {
    var n := DayNumber(d);
    var (y, doy) := LocateYear(1970, n);
    MonthTable(d.year, d.month);
    YearPositionUnique(y, doy, d.year, DaysBeforeMonth(d.year, d.month) + d.day - 1);
    var m := LocateMonth(y, doy, 1);
    if m < d.month {
      MonthTableMonotone(y, m + 1, d.month);
    } else if d.month < m {
      MonthTableMonotone(y, d.month + 1, m);
    }
  }

  /* ---------------------------------------------------------------------- */
  /* The fields of a timestamp                                               */
  /* ---------------------------------------------------------------------- */

  /** Days since the epoch of the calendar day holding timestamp `t`
      (rounded toward minus infinity, so times before the epoch fall on
      the right day). */
  function EpochDay(t: int): int
  {
    t / SecondsPerDay
  }

  function DateOfTimestamp(t: int): (d: Date)
    ensures ValidDate(d)
  {
    DateOf(EpochDay(t))
  }

  /** `.dt.year` */
  function Year(t: int): int
  {
    DateOfTimestamp(t).year
  }

  /** `.dt.month` */
  function Month(t: int): (m: int)
    ensures 1 <= m <= 12
  {
    DateOfTimestamp(t).month
  }

  /** `.dt.dayofweek`, Monday = 0 through Sunday = 6 */
  function DayOfWeek(t: int): (w: int)
    ensures 0 <= w <= 6
  {
    (EpochDay(t) + EpochDayOfWeek) % 7
  }

  /** `.dt.hour` */
  function Hour(t: int): (h: int)
    ensures 0 <= h <= 23
    ensures SecondsPerHour * h <= t - SecondsPerDay * EpochDay(t) < SecondsPerHour * (h + 1)
  {
    (t % SecondsPerDay) / SecondsPerHour
  }

  /** `.dt.to_period("M")`: the calendar month a timestamp falls in. */
  function YearMonth(t: int): (int, int)
  {
    var d := DateOfTimestamp(t);
    (d.year, d.month)
  }

  /** A timestamp lies within the day its date names. */
  lemma TimestampInItsDay(t: int)
    ensures SecondsPerDay * DayNumber(DateOfTimestamp(t)) <= t
    ensures t < SecondsPerDay * (DayNumber(DateOfTimestamp(t)) + 1)
  {
  }

  /** Monday is 0: 1970-01-05, the first Monday after the epoch, has
      weekday 0. With `DayOfWeekNextDay` this fixes every weekday. */
  lemma MondayIsZero()
    ensures DayNumber(Date(1970, 1, 5)) == 4
    ensures DayOfWeek(SecondsPerDay * DayNumber(Date(1970, 1, 5))) == 0
  {
  }

  /** A day later is the next weekday, Sunday wrapping round to Monday. */
  lemma DayOfWeekNextDay(t: int)
    ensures DayOfWeek(t + SecondsPerDay) == (DayOfWeek(t) + 1) % 7
  {
    assert EpochDay(t + SecondsPerDay) == EpochDay(t) + 1;
  }

  /** The hour of a timestamp does not depend on its day. */
  lemma HourOfDayShift(t: int, days: int)
    ensures Hour(t + days * SecondsPerDay) == Hour(t)
  {
    assert (t + days * SecondsPerDay) % SecondsPerDay == t % SecondsPerDay;
  }
}
