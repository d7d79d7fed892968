/** The proleptic Gregorian calendar, as far as `to_period("M")` needs it: the
    (year, month) that a naive timestamp, in seconds since 1970-01-01T00:00:00,
    falls in. */
module Calendar {

  const SecondsPerDay: int := 86400

  /** A monthly period label such as 2024-01. */
  datatype Period = Period(year: int, month: int)

  predicate IsLeap(y: int) {
    y % 4 == 0 && (y % 100 != 0 || y % 400 == 0)
  }

  function DaysInYear(y: int): int {
    if IsLeap(y) then 366 else 365
  }

  function DaysInMonth(y: int, m: int): int
    requires 1 <= m <= 12
  {
    if m == 2 then (if IsLeap(y) then 29 else 28)
    else if m == 4 || m == 6 || m == 9 || m == 11 then 30
    else 31
  }

  /** Leap years strictly before year y, counted from year 1 (negative below it). */
  function LeapYearsBefore(y: int): int {
    (y - 1) / 4 - (y - 1) / 100 + (y - 1) / 400
  }

  /** Closed form: days from 1970-01-01 to January 1st of year y. */
  function DaysBeforeYear(y: int): int {
    365 * (y - 1970) + LeapYearsBefore(y) - LeapYearsBefore(1970)
  }

  /** Days of year y before the first day of month m (m == 13 gives the whole year). */
  function DaysBeforeMonth(y: int, m: int): int
    requires 1 <= m <= 13
  {
    if m == 1 then 0 else DaysBeforeMonth(y, m - 1) + DaysInMonth(y, m - 1)
  }

  /** Day number (days since 1970-01-01) of the first day of month m of year y. */
  function MonthStart(y: int, m: int): int
    requires 1 <= m <= 12
  {
    DaysBeforeYear(y) + DaysBeforeMonth(y, m)
  }

  /** The day a timestamp falls on; Dafny's division floors for a positive divisor. */
  function DayOf(t: int): int {
    t / SecondsPerDay
  }

  /** The month that contains day number `day`. */
  predicate InMonth(day: int, p: Period) {
    1 <= p.month <= 12 &&
    MonthStart(p.year, p.month) <= day < MonthStart(p.year, p.month) + DaysInMonth(p.year, p.month)
  }

  /** One more multiple of k (4, 100 or 400) fits below y + 1 than below y exactly when k divides y. */
  lemma MultiplesStep(y: int)
    ensures y / 4 - (y - 1) / 4 == if y % 4 == 0 then 1 else 0
    ensures y / 100 - (y - 1) / 100 == if y % 100 == 0 then 1 else 0
    ensures y / 400 - (y - 1) / 400 == if y % 400 == 0 then 1 else 0
  {
  }

  /** A multiple of 400 is one of 100, and a multiple of 100 one of 4. */
  lemma MultiplesNested(y: int)
    ensures y % 400 == 0 ==> y % 100 == 0
    ensures y % 100 == 0 ==> y % 4 == 0
  {
  }

  /** A year of the closed form is exactly as long as DaysInYear says. */
  lemma DaysBeforeYearStep(y: int)
    ensures DaysBeforeYear(y + 1) == DaysBeforeYear(y) + DaysInYear(y)
  {
    MultiplesStep(y);
    MultiplesNested(y);
    assert LeapYearsBefore(y + 1) - LeapYearsBefore(y) == if IsLeap(y) then 1 else 0;
  }

  /** The twelve months add up to the year. */
  lemma YearOfMonths(y: int)
    ensures DaysBeforeMonth(y, 13) == DaysInYear(y)
  {
    var feb := DaysInMonth(y, 2);
    assert DaysBeforeMonth(y, 2) == 31;
    assert DaysBeforeMonth(y, 3) == 31 + feb;
    assert DaysBeforeMonth(y, 4) == 62 + feb;
    assert DaysBeforeMonth(y, 5) == 92 + feb;
    assert DaysBeforeMonth(y, 6) == 123 + feb;
    assert DaysBeforeMonth(y, 7) == 153 + feb;
    assert DaysBeforeMonth(y, 8) == 184 + feb;
    assert DaysBeforeMonth(y, 9) == 215 + feb;
    assert DaysBeforeMonth(y, 10) == 245 + feb;
    assert DaysBeforeMonth(y, 11) == 276 + feb;
    assert DaysBeforeMonth(y, 12) == 306 + feb;
  }

  /** Walks whole years from January 1st of y until `d` days later lies inside one:
      the year reached and the day within it. */
  function YearWalk(y: int, d: int): (r: (int, int))
    ensures 0 <= r.1 < DaysInYear(r.0)
    ensures DaysBeforeYear(r.0) + r.1 == DaysBeforeYear(y) + d
    decreases if d < 0 then -d else 0, if d < 0 then 0 else d
  {
    if d < 0 then
      DaysBeforeYearStep(y - 1);
      YearWalk(y - 1, d + DaysInYear(y - 1))
    else if d < DaysInYear(y) then
      (y, d)
    else
      DaysBeforeYearStep(y);
      YearWalk(y + 1, d - DaysInYear(y))
  }

  /** Walks the months of year y from month m until day `d` (counted from the
      first of month m) lies inside one. */
  function MonthWalk(y: int, m: int, d: int): (r: int)
    requires 1 <= m <= 12
    requires 0 <= d < DaysBeforeMonth(y, 13) - DaysBeforeMonth(y, m)
    ensures m <= r <= 12
    ensures DaysBeforeMonth(y, r) <= DaysBeforeMonth(y, m) + d < DaysBeforeMonth(y, r) + DaysInMonth(y, r)
    decreases 12 - m
  {
    if d < DaysInMonth(y, m) then m
    else MonthWalk(y, m + 1, d - DaysInMonth(y, m))
  }

  /** The monthly period of a timestamp, as `to_period("M")` labels it. */
  function PeriodOf(t: int): (p: Period)
    ensures InMonth(DayOf(t), p)
  {
    var (y, doy) := YearWalk(1970, DayOf(t));
    YearOfMonths(y);
    Period(y, MonthWalk(y, 1, doy))
  }

  /** Months follow each other without gap or overlap, within a year and across its end. */
  lemma NextMonthStart(y: int, m: int)
    requires 1 <= m <= 12
    ensures m < 12 ==> MonthStart(y, m) + DaysInMonth(y, m) == MonthStart(y, m + 1)
    ensures m == 12 ==> MonthStart(y, m) + DaysInMonth(y, m) == MonthStart(y + 1, 1)
  {
    if m == 12 {
      YearOfMonths(y);
      DaysBeforeYearStep(y);
    }
  }

  /** A month that starts before another one also ends no later than it starts. */
  lemma {:induction false} MonthsOrdered(y: int, m: int, y': int, m': int)
    requires 1 <= m <= 12 && 1 <= m' <= 12
    requires y < y' || (y == y' && m < m')
    ensures MonthStart(y, m) + DaysInMonth(y, m) <= MonthStart(y', m')
    decreases y' - y, m'
  {
    if m' > 1 {
      // compare with the month before (y', m')
      NextMonthStart(y', m' - 1);
      if y != y' || m != m' - 1 {
        MonthsOrdered(y, m, y', m' - 1);
      }
    } else {
      // (y', 1) follows (y' - 1, 12)
      NextMonthStart(y' - 1, 12);
      if y != y' - 1 || m != 12 {
        MonthsOrdered(y, m, y' - 1, 12);
      }
    }
  }

  /** PeriodOf(t) is the only month that contains the day of t. */
  lemma PeriodUnique(t: int, p: Period)
    requires InMonth(DayOf(t), p)
    ensures PeriodOf(t) == p
  {
    var q := PeriodOf(t);
    if q != p {
      if q.year < p.year || (q.year == p.year && q.month < p.month) {
        MonthsOrdered(q.year, q.month, p.year, p.month);
      } else {
        MonthsOrdered(p.year, p.month, q.year, q.month);
      }
    }
  }

  /** The period of a timestamp is a real month, 1 to 12, and it contains the timestamp. */
  lemma PeriodOfIsMonth(t: int)
    ensures 1 <= PeriodOf(t).month <= 12
    ensures MonthStart(PeriodOf(t).year, PeriodOf(t).month) * SecondsPerDay <= t
    ensures t < (MonthStart(PeriodOf(t).year, PeriodOf(t).month) + DaysInMonth(PeriodOf(t).year, PeriodOf(t).month)) * SecondsPerDay
  {
  }

  /** 2024-01-01T00:00:00 is 1704067200 seconds after the epoch and lies in 2024-01. */
  lemma PeriodExample()
    ensures PeriodOf(1704067200) == Period(2024, 1)
    ensures PeriodOf(1704067199) == Period(2023, 12)
  {
    PeriodUnique(1704067200, Period(2024, 1));
    assert MonthStart(2023, 12) == 19692;
    PeriodUnique(1704067199, Period(2023, 12));
  }
}
