/** Proleptic Gregorian calendar dates and their day numbers (days since 1970-01-01). */
module Civil {

  datatype Date = Date(year: int, month: int, day: int)

  const Epoch: Date := Date(1970, 1, 1)

  predicate IsLeapYear(y: int) {
    y % 4 == 0 && (y % 100 != 0 || y % 400 == 0)
  }

  function DaysInMonth(y: int, m: int): (n: int)
    requires 1 <= m <= 12
    ensures 28 <= n <= 31
  {
    if m == 2 then (if IsLeapYear(y) then 29 else 28)
    else if m == 4 || m == 6 || m == 9 || m == 11 then 30
    else 31
  }

  predicate ValidDate(d: Date) {
    1 <= d.month <= 12 && 1 <= d.day <= DaysInMonth(d.year, d.month)
  }

  function DaysInYear(y: int): int {
    if IsLeapYear(y) then 366 else 365
  }

  /** The number of leap years in 1 .. y-1, shifted by a constant for y <= 0. */
  function LeapYearsBefore(y: int): int {
    (y - 1) / 4 - (y - 1) / 100 + (y - 1) / 400
  }

  /** Day number of January 1st of year y. */
  function DaysBeforeYear(y: int): int {
    365 * (y - 1970) + LeapYearsBefore(y) - LeapYearsBefore(1970)
  }

  /** Days of year y that come before the first of month m. */
  function DaysBeforeMonth(y: int, m: int): int
    requires 1 <= m <= 12
  {
    [0, 31, 59, 90, 120, 151, 181, 212, 243, 273, 304, 334][m - 1]
      + (if m > 2 && IsLeapYear(y) then 1 else 0)
  }

  /** The day number of a date: 0 for 1970-01-01, counting in days. */
  function DaysFromCivil(d: Date): int
    requires ValidDate(d)
  {
    DaysBeforeYear(d.year) + DaysBeforeMonth(d.year, d.month) + d.day - 1
  }

  /** The calendar's successor: next day, rolling over month and year ends. */
  function NextDay(d: Date): (n: Date)
    requires ValidDate(d)
    ensures ValidDate(n)
  {
    if d.day < DaysInMonth(d.year, d.month) then Date(d.year, d.month, d.day + 1)
    else if d.month < 12 then Date(d.year, d.month + 1, 1)
    else Date(d.year + 1, 1, 1)
  }

  /** The calendar's predecessor: the previous day, rolling back over month and year starts. */
  function PrevDay(d: Date): (p: Date)
    requires ValidDate(d)
    ensures ValidDate(p) && NextDay(p) == d
  {
    if d.day > 1 then Date(d.year, d.month, d.day - 1)
    else if d.month > 1 then Date(d.year, d.month - 1, DaysInMonth(d.year, d.month - 1))
    else Date(d.year - 1, 12, 31)
  }

  /** The date k days after d (before d when k < 0), by stepping through the calendar. */
  function AddDays(d: Date, k: int): (r: Date)
    requires ValidDate(d)
    ensures ValidDate(r)
    decreases if k < 0 then -k else k
  {
    if k == 0 then d
    else if k > 0 then AddDays(NextDay(d), k - 1)
    else AddDays(PrevDay(d), k + 1)
  }

  /** y/k steps up by one from (y-1)/k exactly when k divides y (for the divisors of the leap rule). */
  lemma FloorStep(y: int, k: int)
    requires k == 4 || k == 100 || k == 400
    ensures y / k - (y - 1) / k == if y % k == 0 then 1 else 0
  {
  }

  lemma LeapYearsStep(y: int)
    ensures LeapYearsBefore(y + 1) - LeapYearsBefore(y) == if IsLeapYear(y) then 1 else 0
  {
    FloorStep(y, 4);
    FloorStep(y, 100);
    FloorStep(y, 400);
    if y % 100 == 0 {
      CenturyIsLeapStep(y);
    }
    if y % 400 == 0 {
      FourCenturiesIsCentury(y);
    }
  }

  /** A multiple of 100 is a multiple of 4. */
  lemma CenturyIsLeapStep(y: int)
    requires y % 100 == 0
    ensures y % 4 == 0
  {
    var q := y / 100;
    assert y == 4 * (25 * q);
  }

  /** A multiple of 400 is a multiple of 100. */
  lemma FourCenturiesIsCentury(y: int)
    requires y % 400 == 0
    ensures y % 100 == 0
  {
    var q := y / 400;
    assert y == 100 * (4 * q);
  }

  /** Consecutive New Year's days are a year's length apart. */
  lemma YearStep(y: int)
    ensures DaysBeforeYear(y + 1) == DaysBeforeYear(y) + DaysInYear(y)
  {
    LeapYearsStep(y);
  }

  /** The day number of the calendar's successor is one more: day numbers follow the calendar. */
  lemma NextDayIsNextNumber(d: Date)
    requires ValidDate(d)
    ensures DaysFromCivil(NextDay(d)) == DaysFromCivil(d) + 1
  {
    if d.day == DaysInMonth(d.year, d.month) && d.month == 12 {
      YearStep(d.year);
    }
  }

  /** Moving k days through the calendar moves the day number by exactly k. */
  lemma {:induction false} AddDaysCountsDays(d: Date, k: int)
    requires ValidDate(d)
    ensures DaysFromCivil(AddDays(d, k)) == DaysFromCivil(d) + k
    decreases if k < 0 then -k else k
  {
    if k > 0 {
      NextDayIsNextNumber(d);
      AddDaysCountsDays(NextDay(d), k - 1);
    } else if k < 0 {
      NextDayIsNextNumber(PrevDay(d));
      AddDaysCountsDays(PrevDay(d), k + 1);
    }
  }

  /** The date with day number n; the inverse of DaysFromCivil. */
  function CivilFromDays(n: int): (d: Date)
    ensures ValidDate(d) && DaysFromCivil(d) == n
  {
    assert DaysFromCivil(Epoch) == 0;
    AddDaysCountsDays(Epoch, n);
    AddDays(Epoch, n)
  }

  /** a comes strictly before b in calendar order. */
  predicate Precedes(a: Date, b: Date) {
    a.year < b.year
    || (a.year == b.year && (a.month < b.month || (a.month == b.month && a.day < b.day)))
  }

  lemma MonthFitsInYear(y: int, m: int)
    requires 1 <= m <= 12
    ensures DaysBeforeMonth(y, m) + DaysInMonth(y, m) <= DaysInYear(y)
  {
  }

  lemma {:induction false} MonthsGrow(y: int, m1: int, m2: int)
    requires 1 <= m1 < m2 <= 12
    ensures DaysBeforeMonth(y, m1) + DaysInMonth(y, m1) <= DaysBeforeMonth(y, m2)
    decreases m2 - m1
  {
    if m1 + 1 < m2 {
      MonthsGrow(y, m1 + 1, m2);
    }
  }

  lemma {:induction false} YearsGrow(y1: int, y2: int)
    requires y1 < y2
    ensures DaysBeforeYear(y1) + DaysInYear(y1) <= DaysBeforeYear(y2)
    decreases y2 - y1
  {
    YearStep(y1);
    if y1 + 1 < y2 {
      YearsGrow(y1 + 1, y2);
    }
  }

  /** Day numbers are strictly increasing in calendar order. */
  lemma DaysFromCivilIncreasing(a: Date, b: Date)
    requires ValidDate(a) && ValidDate(b) && Precedes(a, b)
    ensures DaysFromCivil(a) < DaysFromCivil(b)
  {
    if a.year < b.year {
      MonthFitsInYear(a.year, a.month);
      YearsGrow(a.year, b.year);
    } else if a.month < b.month {
      MonthsGrow(a.year, a.month, b.month);
    }
  }

  /** Distinct dates have distinct day numbers. */
  lemma DaysFromCivilInjective(a: Date, b: Date)
    requires ValidDate(a) && ValidDate(b) && DaysFromCivil(a) == DaysFromCivil(b)
    ensures a == b
  {
    if Precedes(a, b) {
      DaysFromCivilIncreasing(a, b);
    } else if Precedes(b, a) {
      DaysFromCivilIncreasing(b, a);
    }
  }

  /** CivilFromDays undoes DaysFromCivil: the two are a bijection between valid dates and integers. */
  lemma CivilOfDayNumber(d: Date)
    requires ValidDate(d)
    ensures CivilFromDays(DaysFromCivil(d)) == d
  {
    DaysFromCivilInjective(CivilFromDays(DaysFromCivil(d)), d);
  }
}
