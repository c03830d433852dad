/**
  The proleptic Gregorian calendar, as the Go time package uses it to turn a
  count of days since the Unix epoch into a year, month and day.

  `DaysFromCivil` is the reference definition: it counts whole years one at a
  time from 1970 and whole months one at a time from January.  `CivilFromDays`
  is the fast direction, written the way Go's date computation is: it peels off
  400-year, 100-year, 4-year and 1-year cycles.  The two are proved inverse.
 */
module Calendar {

  /** A calendar date; `IsValid` says whether it names a real day. */
  datatype Date = Date(year: int, month: int, day: int)

  predicate IsLeapYear(y: int) {
    y % 4 == 0 && (y % 100 != 0 || y % 400 == 0)
  }

  function YearLength(y: int): int {
    if IsLeapYear(y) then 366 else 365
  }

  function DaysInMonth(y: int, m: int): int
    requires 1 <= m <= 12
  {
    if m == 2 then (if IsLeapYear(y) then 29 else 28)
    else if m == 4 || m == 6 || m == 9 || m == 11 then 30
    else 31
  }

  predicate IsValid(d: Date) {
    1 <= d.month <= 12 && 1 <= d.day <= DaysInMonth(d.year, d.month)
  }

  /** Number of days of year `y` that lie in the months before month `m`. */
  function DaysBeforeMonth(y: int, m: int): int
    requires 1 <= m <= 13
  {
    if m == 1 then 0 else DaysBeforeMonth(y, m - 1) + DaysInMonth(y, m - 1)
  }

  /** Number of days from 1970-01-01 to January 1st of year `y` (negative before 1970). */
  function DaysBeforeYear(y: int): int
    decreases if y >= 1970 then y - 1970 else 1970 - y
  {
    if y == 1970 then 0
    else if y > 1970 then DaysBeforeYear(y - 1) + YearLength(y - 1)
    else DaysBeforeYear(y + 1) - YearLength(y)
  }

  /** Days since 1970-01-01 of the date `d` (the reference direction). */
  function DaysFromCivil(d: Date): int
    requires 1 <= d.month <= 12
  {
    DaysBeforeYear(d.year) + DaysBeforeMonth(d.year, d.month) + d.day - 1
  }

  const DaysPer400Years: int := 146097
  const DaysPer100Years: int := 36524
  const DaysPer4Years: int := 1461
  /** Days from 0001-01-01 to 1970-01-01. */
  const DaysFromYearOneToEpoch: int := 719162

  /** Number of leap years in [1, y) when y >= 1; a difference of two values counts the
      leap years between them for any y. */
  function LeapsBefore(y: int): int {
    (y - 1) / 4 - (y - 1) / 100 + (y - 1) / 400
  }

  // ---------------------------------------------------------------------------
  // Facts about the reference definition
  // ---------------------------------------------------------------------------

  lemma YearIsSumOfMonths(y: int)
    ensures DaysBeforeMonth(y, 13) == YearLength(y)
  {
    assert DaysBeforeMonth(y, 2) == 31;
    assert DaysBeforeMonth(y, 3) == 31 + DaysInMonth(y, 2);
    assert DaysBeforeMonth(y, 4) == 62 + DaysInMonth(y, 2);
    assert DaysBeforeMonth(y, 5) == 92 + DaysInMonth(y, 2);
    assert DaysBeforeMonth(y, 6) == 123 + DaysInMonth(y, 2);
    assert DaysBeforeMonth(y, 7) == 153 + DaysInMonth(y, 2);
    assert DaysBeforeMonth(y, 8) == 184 + DaysInMonth(y, 2);
    assert DaysBeforeMonth(y, 9) == 215 + DaysInMonth(y, 2);
    assert DaysBeforeMonth(y, 10) == 245 + DaysInMonth(y, 2);
    assert DaysBeforeMonth(y, 11) == 276 + DaysInMonth(y, 2);
    assert DaysBeforeMonth(y, 12) == 306 + DaysInMonth(y, 2);
  }

  /** Consecutive years are `YearLength` apart, on both sides of 1970. */
  lemma DaysBeforeNextYear(y: int)
    ensures DaysBeforeYear(y + 1) == DaysBeforeYear(y) + YearLength(y)
  {
  }

  /** Month starts are strictly increasing within a year. */
  lemma {:induction false} MonthsAreOrdered(y: int, m1: int, m2: int)
    requires 1 <= m1 < m2 <= 13
    ensures DaysBeforeMonth(y, m1) + DaysInMonth(y, m1) <= DaysBeforeMonth(y, m2)
    decreases m2 - m1
  {
    if m1 + 1 < m2 {
      MonthsAreOrdered(y, m1 + 1, m2);
    }
  }

  /** Year starts are strictly increasing. */
  lemma {:induction false} YearsAreOrdered(y1: int, y2: int)
    requires y1 < y2
    ensures DaysBeforeYear(y1) + YearLength(y1) <= DaysBeforeYear(y2)
    decreases y2 - y1
  {
    DaysBeforeNextYear(y1);
    if y1 + 1 < y2 {
      YearsAreOrdered(y1 + 1, y2);
      DaysBeforeNextYear(y1 + 1);
    }
  }

  /** From one year to the next, `LeapsBefore` grows by one exactly when the earlier year is a leap year. */
  lemma LeapsBeforeStep(y: int)
    ensures LeapsBefore(y + 1) == LeapsBefore(y) + (if IsLeapYear(y) then 1 else 0)
  {
    QuotientStep4(y);
    QuotientStep100(y);
    QuotientStep400(y);
    DivisibleChain(y);
  }

  /** Going from `y - 1` to `y`, the quotient by 4 grows exactly when `y` is a multiple of 4. */
  lemma QuotientStep4(y: int)
    ensures y / 4 == (y - 1) / 4 + (if y % 4 == 0 then 1 else 0)
  {
    var q, r := (y - 1) / 4, (y - 1) % 4;
    assert y - 1 == 4 * q + r && 0 <= r < 4;
    if r == 3 {
      DivisionIsUnique4(y, q + 1, 0);
    } else {
      DivisionIsUnique4(y, q, r + 1);
    }
  }

  lemma QuotientStep100(y: int)
    ensures y / 100 == (y - 1) / 100 + (if y % 100 == 0 then 1 else 0)
  {
    var q, r := (y - 1) / 100, (y - 1) % 100;
    assert y - 1 == 100 * q + r && 0 <= r < 100;
    if r == 99 {
      DivisionIsUnique100(y, q + 1, 0);
    } else {
      DivisionIsUnique100(y, q, r + 1);
    }
  }

  lemma QuotientStep400(y: int)
    ensures y / 400 == (y - 1) / 400 + (if y % 400 == 0 then 1 else 0)
  {
    var q, r := (y - 1) / 400, (y - 1) % 400;
    assert y - 1 == 400 * q + r && 0 <= r < 400;
    if r == 399 {
      DivisionIsUnique400(y, q + 1, 0);
    } else {
      DivisionIsUnique400(y, q, r + 1);
    }
  }

  /** A quotient and remainder in range are the ones Euclidean division yields. */
  lemma DivisionIsUnique4(a: int, q: int, r: int)
    requires a == 4 * q + r && 0 <= r < 4
    ensures a / 4 == q && a % 4 == r
  {
  }

  lemma DivisionIsUnique100(a: int, q: int, r: int)
    requires a == 100 * q + r && 0 <= r < 100
    ensures a / 100 == q && a % 100 == r
  {
  }

  lemma DivisionIsUnique400(a: int, q: int, r: int)
    requires a == 400 * q + r && 0 <= r < 400
    ensures a / 400 == q && a % 400 == r
  {
  }

  /** A multiple of 400 is a multiple of 100, which is a multiple of 4. */
  lemma DivisibleChain(y: int)
    ensures y % 400 == 0 ==> y % 100 == 0
    ensures y % 100 == 0 ==> y % 4 == 0
  {
    if y % 400 == 0 {
      DivisionIsUnique100(y, 4 * (y / 400), 0);
    }
    if y % 100 == 0 {
      DivisionIsUnique4(y, 25 * (y / 100), 0);
    }
  }

  /** The year-by-year count agrees with the closed leap-year formula. */
  lemma {:induction false} DaysBeforeYearClosedForm(y: int)
    ensures DaysBeforeYear(y) == 365 * (y - 1970) + LeapsBefore(y) - LeapsBefore(1970)
    decreases if y >= 1970 then y - 1970 else 1970 - y
  {
    if y > 1970 {
      DaysBeforeYearClosedForm(y - 1);
      LeapsBeforeStep(y - 1);
    } else if y < 1970 {
      DaysBeforeYearClosedForm(y + 1);
      LeapsBeforeStep(y);
    }
  }

  // ---------------------------------------------------------------------------
  // From a day count to a date
  // ---------------------------------------------------------------------------

  /** The month of year `y` holding day-of-year `doy` (0-based), searched from month `m`,
      together with the 1-based day within that month. */
  function MonthOf(y: int, doy: int, m: int): (r: (int, int))
    requires 1 <= m <= 12
    requires DaysBeforeMonth(y, m) <= doy < YearLength(y)
    ensures m <= r.0 <= 12
    ensures 1 <= r.1 <= DaysInMonth(y, r.0)
    ensures DaysBeforeMonth(y, r.0) + r.1 - 1 == doy
    decreases 12 - m
  {
    if m == 12 || doy < DaysBeforeMonth(y, m) + DaysInMonth(y, m) then
      YearIsSumOfMonths(y);
      (m, doy - DaysBeforeMonth(y, m) + 1)
    else
      MonthOf(y, doy, m + 1)
  }

  /** Splits the day count `z` (days since 1970-01-01) into the year it falls in and the
      0-based day within that year, peeling off whole 400-, 100-, 4- and 1-year cycles
      counted from 0001-01-01. */
  function YearOf(z: int): (r: (int, int))
    ensures 0 <= r.1 < YearLength(r.0)
    ensures DaysBeforeYear(r.0) + r.1 == z
  {
    var a := z + DaysFromYearOneToEpoch;
    var n400 := a / DaysPer400Years;
    var r400 := a % DaysPer400Years;
    // The last day of a 400-year cycle belongs to its fourth century.
    var n100 := if r400 / DaysPer100Years == 4 then 3 else r400 / DaysPer100Years;
    var r100 := r400 - DaysPer100Years * n100;
    var n4 := r100 / DaysPer4Years;
    var r4 := r100 % DaysPer4Years;
    // The last day of a leap year belongs to the fourth year of its 4-year cycle.
    var n1 := if r4 / 365 == 4 then 3 else r4 / 365;
    var doy := r4 - 365 * n1;
    var y := 1 + 400 * n400 + 100 * n100 + 4 * n4 + n1;
    CycleDecomposition(a, n400, r400, n100, r100, n4, r4, n1, doy, y);
    (y, doy)
  }

  /** The arithmetic behind `YearOf`. */
  lemma CycleDecomposition(a: int, n400: int, r400: int, n100: int, r100: int,
                           n4: int, r4: int, n1: int, doy: int, y: int)
    requires n400 == a / DaysPer400Years && r400 == a % DaysPer400Years
    requires n100 == (if r400 / DaysPer100Years == 4 then 3 else r400 / DaysPer100Years)
    requires r100 == r400 - DaysPer100Years * n100
    requires n4 == r100 / DaysPer4Years && r4 == r100 % DaysPer4Years
    requires n1 == (if r4 / 365 == 4 then 3 else r4 / 365)
    requires doy == r4 - 365 * n1
    requires y == 1 + 400 * n400 + 100 * n100 + 4 * n4 + n1
    ensures 0 <= doy < YearLength(y)
    ensures DaysBeforeYear(y) + doy == a - DaysFromYearOneToEpoch
  {
    CenturyBounds(r400, n100, r100);
    YearInCenturyBounds(r100, n4, r4, n1, doy);
    assert a == DaysPer400Years * n400 + DaysPer100Years * n100 + DaysPer4Years * n4 + 365 * n1 + doy;
    LeapsOfDecomposedYear(n400, n100, n4, n1);
    assert LeapsBefore(1970) == 477;
    DaysBeforeYearClosedForm(y);
    if doy == 365 {
      LastDayOfCycleIsLeap(n400, n100, n4, y);
    }
  }

  lemma CenturyBounds(r400: int, n100: int, r100: int)
    requires 0 <= r400 < DaysPer400Years
    requires n100 == (if r400 / DaysPer100Years == 4 then 3 else r400 / DaysPer100Years)
    requires r100 == r400 - DaysPer100Years * n100
    ensures 0 <= n100 <= 3 && 0 <= r100 <= DaysPer100Years
    ensures r100 == DaysPer100Years ==> n100 == 3
  {
  }

  lemma YearInCenturyBounds(r100: int, n4: int, r4: int, n1: int, doy: int)
    requires 0 <= r100 <= DaysPer100Years
    requires n4 == r100 / DaysPer4Years && r4 == r100 % DaysPer4Years
    requires n1 == (if r4 / 365 == 4 then 3 else r4 / 365)
    requires doy == r4 - 365 * n1
    ensures r100 == DaysPer4Years * n4 + 365 * n1 + doy
    ensures 0 <= n4 <= 24 && 0 <= n1 <= 3 && 0 <= doy <= 365
    ensures doy == 365 ==> n1 == 3 && (n4 == 24 ==> r100 == DaysPer100Years)
  {
  }

  /** Day 365 (the 366th day) of a cycle only occurs in a leap year: the fourth year of a
      4-year cycle, which is a century year only at the end of a 400-year cycle. */
  lemma LastDayOfCycleIsLeap(n400: int, n100: int, n4: int, y: int)
    requires 0 <= n100 <= 3 && 0 <= n4 <= 24
    requires n4 == 24 ==> n100 == 3
    requires y == 1 + 400 * n400 + 100 * n100 + 4 * n4 + 3
    ensures IsLeapYear(y)
  {
    DivisionIsUnique4(y, 100 * n400 + 25 * n100 + n4 + 1, 0);
    if n4 == 24 {
      DivisionIsUnique400(y, n400 + 1, 0);
    } else {
      DivisionIsUnique100(y, 4 * n400 + n100, 4 * (n4 + 1));
    }
  }

  /** Leap years before a year given by its whole 400-, 100-, 4- and 1-year cycles since year 1. */
  lemma LeapsOfDecomposedYear(n400: int, n100: int, n4: int, n1: int)
    requires 0 <= n100 <= 3 && 0 <= n4 <= 24 && 0 <= n1 <= 3
    ensures LeapsBefore(1 + 400 * n400 + 100 * n100 + 4 * n4 + n1) == 97 * n400 + 24 * n100 + n4
  {
    var x := 400 * n400 + 100 * n100 + 4 * n4 + n1;
    assert x / 400 == n400 by {
      assert x == 400 * n400 + (100 * n100 + 4 * n4 + n1);
    }
    assert x / 100 == 4 * n400 + n100 by {
      assert x == 100 * (4 * n400 + n100) + (4 * n4 + n1);
    }
    assert x / 4 == 100 * n400 + 25 * n100 + n4 by {
      assert x == 4 * (100 * n400 + 25 * n100 + n4) + n1;
    }
  }

  /** The date `z` days after 1970-01-01 (negative `z` before it). */
  function CivilFromDays(z: int): (d: Date)
    ensures IsValid(d)
    ensures DaysFromCivil(d) == z
  {
    var (y, doy) := YearOf(z);
    var (m, day) := MonthOf(y, doy, 1);
    Date(y, m, day)
  }

  /** Distinct valid dates have distinct day numbers. */
  lemma DaysFromCivilInjective(d1: Date, d2: Date)
    requires IsValid(d1) && IsValid(d2)
    ensures DaysFromCivil(d1) == DaysFromCivil(d2) <==> d1 == d2
  {
    YearIsSumOfMonths(d1.year);
    YearIsSumOfMonths(d2.year);
    MonthsAreOrdered(d1.year, d1.month, 13);
    MonthsAreOrdered(d2.year, d2.month, 13);
    if 1 < d1.month { MonthsAreOrdered(d1.year, 1, d1.month); }
    if 1 < d2.month { MonthsAreOrdered(d2.year, 1, d2.month); }
    if d1.year < d2.year {
      YearsAreOrdered(d1.year, d2.year);
    } else if d2.year < d1.year {
      YearsAreOrdered(d2.year, d1.year);
    } else if d1.month < d2.month {
      MonthsAreOrdered(d1.year, d1.month, d2.month);
    } else if d2.month < d1.month {
      MonthsAreOrdered(d1.year, d2.month, d1.month);
    }
  }

  /** Every valid date is reached: the day number of a date converts back to that date. */
  lemma CivilRoundTrip(d: Date)
    requires IsValid(d)
    ensures CivilFromDays(DaysFromCivil(d)) == d
  {
    DaysFromCivilInjective(CivilFromDays(DaysFromCivil(d)), d);
  }
}
