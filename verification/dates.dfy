/**
 * `System.DateOnly` as far as the age validator uses it: proleptic Gregorian
 * dates in years 1..9999, their ordering, and `AddYears`.
 */
module Dates {

  datatype Date = Date(year: int, month: int, day: int)

  predicate IsLeapYear(y: int)
  {
    y % 4 == 0 && (y % 100 != 0 || y % 400 == 0)
  }

  function DaysInMonth(y: int, m: int): int
    requires 1 <= m <= 12
  {
    if m == 2 then (if IsLeapYear(y) then 29 else 28)
    else if m == 4 || m == 6 || m == 9 || m == 11 then 30
    else 31
  }

  predicate IsValid(d: Date)
  {
    1 <= d.year <= 9999 && 1 <= d.month <= 12 && 1 <= d.day <= DaysInMonth(d.year, d.month)
  }

  /** A `DateOnly` value: a real calendar date within the type's range. */
  type DateOnly = d: Date | IsValid(d) witness Date(1, 1, 1)

  /** `a`'s (month, day) comes before `b`'s within a year. */
  predicate MonthDayBefore(a: Date, b: Date)
  {
    a.month < b.month || (a.month == b.month && a.day < b.day)
  }

  /** `a < b` on `DateOnly`: year, then month, then day. */
  predicate Before(a: Date, b: Date)
  {
    a.year < b.year || (a.year == b.year && MonthDayBefore(a, b))
  }

  /**
   * `d.AddYears(n)`: the same month and day `n` years on, where 29 February
   * becomes 28 February in a year that is not a leap year. The source only
   * calls it with results inside 1..9999, where it does not throw.
   */
  function AddYears(d: DateOnly, n: int): (r: DateOnly)
    requires 1 <= d.year + n <= 9999
    ensures r.year == d.year + n && r.month == d.month
    ensures r.day == d.day || (d.month == 2 && d.day == 29 && r.day == 28 && !IsLeapYear(r.year))
  {
    var y := d.year + n;
    var last := DaysInMonth(y, d.month);
    Date(y, d.month, if d.day > last then last else d.day)
  }

  /**
   * Completed years from `birth` to `today`: the difference of the years,
   * less one when this year's birthday is still to come.
   */
  function YearsElapsed(birth: DateOnly, today: DateOnly): int
  {
    today.year - birth.year - (if MonthDayBefore(today, birth) then 1 else 0)
  }
}
