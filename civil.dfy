/**
 * The proleptic Gregorian calendar counted from 1970-01-01, the epoch of
 * POSIX timestamps. `CivilFromDays` turns a day number into a date by
 * walking whole years and then whole months; `DaysFromCivil` counts the
 * days back. The two are inverse on valid dates from 1970 on.
 */
module Civil {

  const EpochYear := 1970

  datatype Date = Date(year: int, month: int, day: int)

  predicate IsLeapYear(y: int) {
    y % 4 == 0 && (y % 100 != 0 || y % 400 == 0)
  }

  /** The length of a leap year or of a common one. */
  function YearLength(leap: bool): nat {
    if leap then 366 else 365
  }

  function DaysInYear(y: int): (n: nat)
    ensures n == 365 || n == 366
  {
    YearLength(IsLeapYear(y))
  }

  /** The length of month `m` in a leap year or in a common one. */
  function MonthLength(leap: bool, m: int): (n: nat)
    requires 1 <= m <= 12
    ensures 28 <= n <= 31
  {
    if m == 2 then (if leap then 29 else 28)
    else if m == 4 || m == 6 || m == 9 || m == 11 then 30
    else 31
  }

  function DaysInMonth(y: int, m: int): (n: nat)
    requires 1 <= m <= 12
  {
    MonthLength(IsLeapYear(y), m)
  }

  predicate ValidDate(d: Date) {
    d.year >= EpochYear && 1 <= d.month <= 12 && 1 <= d.day <= DaysInMonth(d.year, d.month)
  }

  /** Days of a year that lie before the first of month `m`. */
  function DaysBeforeMonth(leap: bool, m: int): (n: nat)
    requires 1 <= m <= 13
    decreases m
  {
    if m == 1 then 0 else DaysBeforeMonth(leap, m - 1) + MonthLength(leap, m - 1)
  }

  /** The twelve months make up the year. */
  lemma MonthsFillYear(leap: bool)
    ensures DaysBeforeMonth(leap, 13) == YearLength(leap)
  {
    assert DaysBeforeMonth(leap, 3) == 31 + MonthLength(leap, 2);
    assert DaysBeforeMonth(leap, 7) == DaysBeforeMonth(leap, 3) + 122;
    assert DaysBeforeMonth(leap, 13) == DaysBeforeMonth(leap, 7) + 184;
  }

  /** Days from 1970-01-01 to the first of January of year `y`. */
  function DaysBeforeYear(y: int): (n: nat)
    requires y >= EpochYear
    decreases y
  {
    if y == EpochYear then 0 else DaysBeforeYear(y - 1) + DaysInYear(y - 1)
  }

  /** The day number of a date: 0 for 1970-01-01. */
  function DaysFromCivil(d: Date): (n: nat)
    requires ValidDate(d)
  {
    DaysBeforeYear(d.year) + DaysBeforeMonth(IsLeapYear(d.year), d.month) + d.day - 1
  }

  /**
   * The (month, day) that lies `z` days after the first of month `m`,
   * continuing into later months of the same year.
   */
  function MonthWalk(leap: bool, m: int, z: nat): (md: (int, int))
    requires 1 <= m <= 12
    requires DaysBeforeMonth(leap, m) + z < YearLength(leap)
    ensures m <= md.0 <= 12 && 1 <= md.1 <= MonthLength(leap, md.0)
    ensures DaysBeforeMonth(leap, md.0) + md.1 - 1 == DaysBeforeMonth(leap, m) + z
    decreases 12 - m
  {
    if z < MonthLength(leap, m) then (m, z + 1)
    else if m == 12 then MonthsFillYear(leap); assert false; (m, 1)
    else MonthWalk(leap, m + 1, z - MonthLength(leap, m))
  }

  /** The date that lies `z` days after the first of January of year `y`. */
  function YearWalk(y: int, z: nat): (d: Date)
    requires y >= EpochYear
    ensures ValidDate(d) && d.year >= y
    ensures DaysFromCivil(d) == DaysBeforeYear(y) + z
    decreases z
  {
    if z < DaysInYear(y) then
      var md := MonthWalk(IsLeapYear(y), 1, z);
      Date(y, md.0, md.1)
    else YearWalk(y + 1, z - DaysInYear(y))
  }

  /** The civil date of day number `z`, counted from 1970-01-01. */
  function CivilFromDays(z: nat): (d: Date)
    ensures ValidDate(d)
    ensures DaysFromCivil(d) == z
  {
    YearWalk(EpochYear, z)
  }

  /** Month `a` ends no later than month `b > a` begins. */
  lemma {:induction false} MonthEndsBefore(leap: bool, a: int, b: int)
    requires 1 <= a < b <= 13
    ensures DaysBeforeMonth(leap, a) + MonthLength(leap, a) <= DaysBeforeMonth(leap, b)
    decreases b - a
  {
    if a + 1 < b {
      MonthEndsBefore(leap, a, b - 1);
    }
  }

  /** A day of the year lies in exactly one month, at exactly one offset. */
  lemma MonthPositionUnique(leap: bool, a: int, x: int, b: int, y: int)
    requires 1 <= a <= 12 && 0 <= x < MonthLength(leap, a)
    requires 1 <= b <= 12 && 0 <= y < MonthLength(leap, b)
    requires DaysBeforeMonth(leap, a) + x == DaysBeforeMonth(leap, b) + y
    ensures a == b && x == y
  {
    if a < b {
      MonthEndsBefore(leap, a, b);
    } else if b < a {
      MonthEndsBefore(leap, b, a);
    }
  }

  /** Every month ends inside its year. */
  lemma MonthInsideYear(leap: bool, m: int)
    requires 1 <= m <= 12
    ensures DaysBeforeMonth(leap, m) + MonthLength(leap, m) <= YearLength(leap)
  {
    MonthsFillYear(leap);
    if m < 12 {
      MonthEndsBefore(leap, m, 13);
    }
  }

  /** Year `a` ends no later than year `b > a` begins. */
  lemma {:induction false} YearEndsBefore(a: int, b: int)
    requires EpochYear <= a < b
    ensures DaysBeforeYear(a) + DaysInYear(a) <= DaysBeforeYear(b)
    decreases b - a
  {
    if a + 1 < b {
      YearEndsBefore(a, b - 1);
    }
  }

  /** A day number lies in exactly one year, at exactly one offset. */
  lemma YearPositionUnique(a: int, x: int, b: int, y: int)
    requires EpochYear <= a && 0 <= x < DaysInYear(a)
    requires EpochYear <= b && 0 <= y < DaysInYear(b)
    requires DaysBeforeYear(a) + x == DaysBeforeYear(b) + y
    ensures a == b && x == y
  {
    if a < b {
      YearEndsBefore(a, b);
    } else if b < a {
      YearEndsBefore(b, a);
    }
  }

  /** Distinct valid dates have distinct day numbers. */
  lemma DaysFromCivilInjective(d: Date, e: Date)
    requires ValidDate(d) && ValidDate(e)
    ensures DaysFromCivil(d) == DaysFromCivil(e) <==> d == e
  {
    if DaysFromCivil(d) == DaysFromCivil(e) {
      var ld, le := IsLeapYear(d.year), IsLeapYear(e.year);
      MonthInsideYear(ld, d.month);
      MonthInsideYear(le, e.month);
      YearPositionUnique(d.year, DaysBeforeMonth(ld, d.month) + d.day - 1,
                         e.year, DaysBeforeMonth(le, e.month) + e.day - 1);
      MonthPositionUnique(ld, d.month, d.day - 1, e.month, e.day - 1);
    }
  }

  /** Every valid date from 1970 on is the civil date of its own day number. */
  lemma CivilOfDaysFromCivil(d: Date)
    requires ValidDate(d)
    ensures CivilFromDays(DaysFromCivil(d)) == d
  {
    DaysFromCivilInjective(CivilFromDays(DaysFromCivil(d)), d);
  }
}
