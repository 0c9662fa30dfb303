/** The proleptic Gregorian calendar the projector relies on when it moves an
    inclusive end date one day forward (`end + timedelta(days=1)`).

    A date is numbered by its ordinal, counting 0001-01-01 as day 1, the same
    numbering as Python's `date.toordinal`; adding one day means moving to the
    date whose ordinal is one larger. `NextDay` and `PrevDay` compute that
    neighbour by field arithmetic, and the lemmas below tie them back to the
    ordinal. */
module Gregorian {

  /** Largest year a Python `date` can hold (`datetime.MAXYEAR`). */
  const MaxYear: int := 9999

  datatype Date = Date(year: int, month: int, day: int)

  predicate IsLeapYear(y: int) {
    y % 4 == 0 && (y % 100 != 0 || y % 400 == 0)
  }

  function DaysInMonth(y: int, m: int): (n: int)
    requires 1 <= m <= 12
    ensures 28 <= n <= 31
    ensures n == 29 <==> m == 2 && IsLeapYear(y)
  {
    if m == 2 then (if IsLeapYear(y) then 29 else 28)
    else if m == 4 || m == 6 || m == 9 || m == 11 then 30
    else 31
  }

  function DaysInYear(y: int): int {
    if IsLeapYear(y) then 366 else 365
  }

  /** A real day of the calendar, from year 1 on, with no upper year bound. */
  predicate IsCalendarDate(d: Date) {
    && 1 <= d.year
    && 1 <= d.month <= 12
    && 1 <= d.day <= DaysInMonth(d.year, d.month)
  }

  /** A calendar day whose year fits in four digits (years 1 to 9999). */
  predicate Representable(d: Date) {
    IsCalendarDate(d) && d.year <= MaxYear
  }

  /** Days in all years before `y`. */
  function DaysBeforeYear(y: int): int
    requires 1 <= y
  {
    var p := y - 1;
    365 * p + p / 4 - p / 100 + p / 400
  }

  /** Days in the months of year `y` before month `m`. */
  function DaysBeforeMonth(y: int, m: int): int
    requires 1 <= m <= 12
  {
    var common := [0, 31, 59, 90, 120, 151, 181, 212, 243, 273, 304, 334];
    common[m - 1] + (if m > 2 && IsLeapYear(y) then 1 else 0)
  }

  /** Position of `d` in the calendar, 0001-01-01 being day 1. */
  function DayNumber(d: Date): int
    requires IsCalendarDate(d)
  {
    DaysBeforeYear(d.year) + DaysBeforeMonth(d.year, d.month) + d.day
  }

  /** The following calendar day; its year may leave the four-digit range. */
  function NextDay(d: Date): (r: Date)
    requires IsCalendarDate(d)
    ensures IsCalendarDate(r)
    ensures r.year == d.year || (r.year == d.year + 1 && r.month == 1 && r.day == 1)
  {
    if d.day < DaysInMonth(d.year, d.month) then Date(d.year, d.month, d.day + 1)
    else if d.month < 12 then Date(d.year, d.month + 1, 1)
    else Date(d.year + 1, 1, 1)
  }

  /** The preceding calendar day; 0001-01-01 has none. */
  function PrevDay(d: Date): (r: Date)
    requires IsCalendarDate(d) && d != Date(1, 1, 1)
    ensures IsCalendarDate(r)
    ensures r.year == d.year || (r.year == d.year - 1 && r.month == 12 && r.day == 31)
  {
    if d.day > 1 then Date(d.year, d.month, d.day - 1)
    else if d.month > 1 then Date(d.year, d.month - 1, DaysInMonth(d.year, d.month - 1))
    else Date(d.year - 1, 12, 31)
  }

  /** Going forward one day and back again returns to the start. */
  lemma PrevOfNext(d: Date)
    requires IsCalendarDate(d)
    ensures NextDay(d) != Date(1, 1, 1)
    ensures PrevDay(NextDay(d)) == d
  {
  }

  /** Going back one day and forward again returns to the start. */
  lemma NextOfPrev(d: Date)
    requires IsCalendarDate(d) && d != Date(1, 1, 1)
    ensures NextDay(PrevDay(d)) == d
  {
  }

  /** The quotients of the leap-year rule grow by one from `y - 1` to `y`
      exactly when `y` is a multiple of the divisor. */
  lemma DivSteps(y: int)
    requires 1 <= y
    ensures y / 4 - (y - 1) / 4 == (if y % 4 == 0 then 1 else 0)
    ensures y / 100 - (y - 1) / 100 == (if y % 100 == 0 then 1 else 0)
    ensures y / 400 - (y - 1) / 400 == (if y % 400 == 0 then 1 else 0)
  {
  }

  /** A multiple of 100 is a multiple of 4, and a multiple of 400 of 100. */
  lemma Multiples(y: int)
    ensures y % 100 == 0 ==> y % 4 == 0
    ensures y % 400 == 0 ==> y % 100 == 0
  {
    if y % 100 == 0 {
      assert y == 4 * (25 * (y / 100));
    }
    if y % 400 == 0 {
      assert y == 100 * (4 * (y / 400));
    }
  }

  /** A year contributes 365 days, 366 in a leap year, to the day count. */
  lemma {:induction false} YearLength(y: int)
    requires 1 <= y
    ensures DaysBeforeYear(y + 1) == DaysBeforeYear(y) + DaysInYear(y)
  {
    DivSteps(y);
    Multiples(y);
  }

  /** `NextDay` is the ordinal successor: its day number is one larger. */
  lemma {:induction false} NextDayIsSuccessor(d: Date)
    requires IsCalendarDate(d)
    ensures DayNumber(NextDay(d)) == DayNumber(d) + 1
  {
    if d.day == DaysInMonth(d.year, d.month) && d.month == 12 {
      YearLength(d.year);
    }
  }

  /** Distinct calendar days have distinct day numbers, so the day number
      identifies a date and `NextDay` is the only date one step later. */
  lemma {:induction false} DayNumberInjective(a: Date, b: Date)
    requires IsCalendarDate(a) && IsCalendarDate(b)
    ensures DayNumber(a) == DayNumber(b) ==> a == b
  {
    if DayNumber(a) == DayNumber(b) && a.year != b.year {
      if a.year < b.year {
        YearStartAfter(a, b.year);
      } else {
        YearStartAfter(b, a.year);
      }
    }
  }

  /** Every day of year `y` numbers below the first day of any later year. */
  lemma {:induction false} YearStartAfter(d: Date, y: int)
    requires IsCalendarDate(d) && d.year < y
    ensures DayNumber(d) < DaysBeforeYear(y) + 1
    decreases y - d.year
  {
    YearLength(d.year);
    assert DayNumber(d) <= DaysBeforeYear(d.year + 1);
    if d.year + 1 < y {
      YearStartAfter(Date(d.year + 1, 1, 1), y);
    }
  }

  /** The day after `d` is the unique calendar day whose number is one more. */
  lemma NextDayUnique(d: Date, e: Date)
    requires IsCalendarDate(d) && IsCalendarDate(e)
    ensures DayNumber(e) == DayNumber(d) + 1 <==> e == NextDay(d)
  {
    NextDayIsSuccessor(d);
    if DayNumber(e) == DayNumber(d) + 1 {
      DayNumberInjective(e, NextDay(d));
    }
  }

  /** Rollovers of the successor: within a month, at a month end, at a year
      end, across a leap February, from a leap day, in 1900 (a century year
      not divisible by 400, so without 29 February) and in 2000 (divisible
      by 400, so with one). */
  lemma NextDayRollovers()
    ensures NextDay(Date(2024, 1, 12)) == Date(2024, 1, 13)
    ensures NextDay(Date(2024, 4, 30)) == Date(2024, 5, 1)
    ensures NextDay(Date(2024, 12, 31)) == Date(2025, 1, 1)
    ensures NextDay(Date(2024, 2, 28)) == Date(2024, 2, 29)
    ensures NextDay(Date(2024, 2, 29)) == Date(2024, 3, 1)
    ensures NextDay(Date(2023, 2, 28)) == Date(2023, 3, 1)
    ensures NextDay(Date(1900, 2, 28)) == Date(1900, 3, 1)
    ensures NextDay(Date(2000, 2, 28)) == Date(2000, 2, 29)
  {
  }
}
