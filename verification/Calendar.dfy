/** The Gregorian calendar, and the closed form that turns a broken-down time into an epoch. */
module Calendar {
  datatype Date = Date(year: int, month: int, day: int)

  predicate IsLeap(year: int) {
    year % 4 == 0 && (year % 100 != 0 || year % 400 == 0)
  }

  function MonthLength(year: int, month: int): int {
    if month == 2 then (if IsLeap(year) then 29 else 28)
    else if month == 4 || month == 6 || month == 9 || month == 11 then 30
    else 31
  }

  predicate ValidDate(d: Date) {
    1 <= d.month <= 12 && 1 <= d.day <= MonthLength(d.year, d.month)
  }

  function NextDay(d: Date): (n: Date)
    requires ValidDate(d)
    ensures ValidDate(n)
  {
    if d.day < MonthLength(d.year, d.month) then d.(day := d.day + 1)
    else if d.month < 12 then Date(d.year, d.month + 1, 1)
    else Date(d.year + 1, 1, 1)
  }

  function PreviousDay(d: Date): (p: Date)
    requires ValidDate(d)
    ensures ValidDate(p) && NextDay(p) == d
  {
    if d.day > 1 then d.(day := d.day - 1)
    else if d.month > 1 then Date(d.year, d.month - 1, MonthLength(d.year, d.month - 1))
    else Date(d.year - 1, 12, 31)
  }

  /** The date `n` days after 1970-01-01 (before it, when negative), counted one day at a time. */
  function CivilDate(n: int): (d: Date)
    ensures ValidDate(d)
    decreases if n < 0 then -n else n
  {
    if n == 0 then Date(1970, 1, 1)
    else if n > 0 then NextDay(CivilDate(n - 1))
    else PreviousDay(CivilDate(n + 1))
  }

  // ----- the closed form

  const CUMULATIVE_DAYS: seq<nat> := [0, 30, 61, 91, 122, 152, 183, 214, 244, 275, 305, 336, 367]
  const DAYS_TO_1970: nat := 719499

  /** Months counted from March, so that the leap day ends the year. */
  function ShiftedMonth(month: int): int {
    if month - 2 <= 0 then month + 10 else month - 2
  }

  function ShiftedYear(year: int, month: int): int {
    if month - 2 <= 0 then year - 1 else year
  }

  function Leaps(year: int): int {
    year / 4 - year / 100 + year / 400
  }

  function DaysBeforeYear(year: int): int {
    Leaps(year) + year * 365
  }

  function DayCount(d: Date): int
    requires 1 <= d.month <= 12
  {
    DaysBeforeYear(ShiftedYear(d.year, d.month)) + CUMULATIVE_DAYS[ShiftedMonth(d.month)] + d.day
    - DAYS_TO_1970
  }

  lemma Multiples(x: int)
    ensures (x + 1) / 4 == x / 4 + (if (x + 1) % 4 == 0 then 1 else 0)
    ensures (x + 1) / 100 == x / 100 + (if (x + 1) % 100 == 0 then 1 else 0)
    ensures (x + 1) / 400 == x / 400 + (if (x + 1) % 400 == 0 then 1 else 0)
  {
  }

  lemma CenturyIsFourth(x: int)
    requires x % 100 == 0
    ensures x % 4 == 0
  {
    var q := x / 100;
    assert x == 4 * (25 * q);
  }

  lemma FourCenturiesIsCentury(x: int)
    requires x % 400 == 0
    ensures x % 100 == 0
  {
    var q := x / 400;
    assert x == 100 * (4 * q);
  }

  lemma YearLength(year: int)
    ensures DaysBeforeYear(year + 1) == DaysBeforeYear(year) + (if IsLeap(year + 1) then 366 else 365)
  {
    Multiples(year);
    if (year + 1) % 400 == 0 {
      FourCenturiesIsCentury(year + 1);
    }
    if (year + 1) % 100 == 0 {
      CenturyIsFourth(year + 1);
    }
  }

  /** Going to the next civil day, over month ends, leap days and year ends, adds exactly one. */
  lemma DayCountNext(d: Date)
    requires ValidDate(d)
    ensures DayCount(NextDay(d)) == DayCount(d) + 1
  {
    hide DaysBeforeYear;
    YearLength(d.year - 1);
    YearLength(d.year);
  }

  /** The closed form is the day-by-day count from 1970-01-01. */
  lemma {:induction false} DayCountOfCivil(n: int)
    ensures DayCount(CivilDate(n)) == n
    decreases if n < 0 then -n else n
  {
    if n > 0 {
      DayCountOfCivil(n - 1);
      DayCountNext(CivilDate(n - 1));
    } else if n < 0 {
      DayCountOfCivil(n + 1);
      DayCountNext(CivilDate(n));
    }
  }

  predicate Earlier(a: Date, b: Date) {
    || a.year < b.year
    || (a.year == b.year && (a.month < b.month || (a.month == b.month && a.day < b.day)))
  }

  lemma {:induction false} DaysBeforeYearGrows(a: int, b: int)
    requires a < b
    ensures DaysBeforeYear(a) + (if IsLeap(a + 1) then 366 else 365) <= DaysBeforeYear(b)
    decreases b - a
  {
    YearLength(a);
    if a + 1 < b {
      DaysBeforeYearGrows(a + 1, b);
    }
  }

  lemma DayCountMonotone(a: Date, b: Date)
    requires ValidDate(a) && ValidDate(b) && Earlier(a, b)
    ensures DayCount(a) < DayCount(b)
  {
    var ya, yb := ShiftedYear(a.year, a.month), ShiftedYear(b.year, b.month);
    if ya < yb {
      DaysBeforeYearGrows(ya, yb);
    }
  }

  /** Every valid date is the civil date of its day count. */
  lemma CivilOfDayCount(d: Date)
    requires ValidDate(d)
    ensures CivilDate(DayCount(d)) == d
  {
    var c := CivilDate(DayCount(d));
    DayCountOfCivil(DayCount(d));
    if Earlier(c, d) {
      DayCountMonotone(c, d);
    } else if Earlier(d, c) {
      DayCountMonotone(d, c);
    }
  }
}
