/** The proleptic Gregorian calendar over local day numbers. This stands in
    for the calendar machinery the date keys, the day-of-year ordinal and the
    "n days ago" arithmetic are computed with. It agrees with that machinery
    from 1582-10-15 on; before that date the platform's Gregorian calendar
    switches to the Julian one, which this model does not. */
module Gregorian {
  import opened Wrappers

  /** A calendar day in the device's current time zone, counted in days from
      0001-01-01, which is day 0. */
  type Day = nat

  datatype Civil = Civil(year: int, month: int, day: int)

  predicate IsLeapYear(y: int) {
    y % 4 == 0 && (y % 100 != 0 || y % 400 == 0)
  }

  function DaysInYear(y: int): nat {
    if IsLeapYear(y) then 366 else 365
  }

  /** Days of year y before the first of month m; m == 13 gives the whole year. */
  function DaysBeforeMonth(y: int, m: int): (n: nat)
    requires 1 <= m <= 13
    ensures m == 1 ==> n == 0
    ensures m == 13 ==> n == DaysInYear(y)
  {
    var common :=
      if m <= 6 then
        if m == 1 then 0 else if m == 2 then 31 else if m == 3 then 59
        else if m == 4 then 90 else if m == 5 then 120 else 151
      else
        if m == 7 then 181 else if m == 8 then 212 else if m == 9 then 243
        else if m == 10 then 273 else if m == 11 then 304 else if m == 12 then 334 else 365;
    common + (if m > 2 && IsLeapYear(y) then 1 else 0)
  }

  function DaysInMonth(y: int, m: int): (n: nat)
    requires 1 <= m <= 12
    ensures 28 <= n <= 31
    ensures n == 29 <==> m == 2 && IsLeapYear(y)
  {
    DaysBeforeMonth(y, m + 1) - DaysBeforeMonth(y, m)
  }

  predicate Valid(c: Civil) {
    c.year >= 1 && 1 <= c.month <= 12 && 1 <= c.day <= DaysInMonth(c.year, c.month)
  }

  /** Days from 0001-01-01 to the first of January of year y. */
  function DaysBeforeYear(y: int): nat
    requires y >= 1
  {
    if y == 1 then 0 else DaysBeforeYear(y - 1) + DaysInYear(y - 1)
  }

  /** The day number of a calendar date. */
  function DayNumber(c: Civil): Day
    requires Valid(c)
  {
    DaysBeforeYear(c.year) + DaysBeforeMonth(c.year, c.month) + c.day - 1
  }

  /** The date that lies d0 days after the first of January of year y,
      searched from month m on. */
  function MonthWalk(y: int, m: int, d0: nat): (c: Civil)
    requires y >= 1 && 1 <= m <= 12 && DaysBeforeMonth(y, m) <= d0 < DaysInYear(y)
    ensures Valid(c) && c.year == y
    ensures DaysBeforeMonth(y, c.month) + c.day - 1 == d0
    decreases 12 - m
  {
    if m == 12 || d0 < DaysBeforeMonth(y, m + 1) then Civil(y, m, d0 - DaysBeforeMonth(y, m) + 1)
    else MonthWalk(y, m + 1, d0)
  }

  /** The date that lies n days after the first of January of year y. */
  function YearWalk(y: int, n: nat): (c: Civil)
    requires y >= 1
    ensures Valid(c) && DayNumber(c) == DaysBeforeYear(y) + n
    decreases n
  {
    if n < DaysInYear(y) then MonthWalk(y, 1, n) else YearWalk(y + 1, n - DaysInYear(y))
  }

  /** The calendar date of a day number. */
  function ToCivil(d: Day): (c: Civil)
    ensures Valid(c) && DayNumber(c) == d
  {
    YearWalk(1, d)
  }

  /** The ordinality of a day in its year, 1 for the first of January. */
  function DayOfYear(d: Day): (r: nat)
    ensures 1 <= r <= DaysInYear(ToCivil(d).year)
    ensures r == d - DaysBeforeYear(ToCivil(d).year) + 1
  {
    var c := ToCivil(d);
    DaysBeforeMonth(c.year, c.month) + c.day
  }

  /** The day `offset` days before d; None when that is before day 0, as
      date arithmetic in the calendar API may yield no date. */
  function DaysAgo(d: Day, offset: nat): (r: Option<Day>)
    ensures r.Some? <==> offset <= d
    ensures r.Some? ==> r.value + offset == d
  {
    if offset <= d then Some(d - offset) else None
  }

  /** Year y + 1 starts DaysInYear(y) days after year y. */
  lemma DaysBeforeNextYear(y: int)
    requires y >= 1
    ensures DaysBeforeYear(y + 1) == DaysBeforeYear(y) + DaysInYear(y)
  {
  }

  lemma {:induction false} DaysBeforeYearMonotone(y1: int, y2: int)
    requires 1 <= y1 < y2
    ensures DaysBeforeYear(y1) + DaysInYear(y1) <= DaysBeforeYear(y2)
    decreases y2 - y1
  {
    if y1 + 1 < y2 {
      DaysBeforeYearMonotone(y1 + 1, y2);
    }
  }

  lemma DayNumberWithinYear(c: Civil)
    requires Valid(c)
    ensures DaysBeforeYear(c.year) <= DayNumber(c) < DaysBeforeYear(c.year) + DaysInYear(c.year)
  {
  }

  /** Distinct dates have distinct day numbers. */
  lemma DayNumberInjective(c1: Civil, c2: Civil)
    requires Valid(c1) && Valid(c2) && DayNumber(c1) == DayNumber(c2)
    ensures c1 == c2
  {
    DayNumberWithinYear(c1);
    DayNumberWithinYear(c2);
    if c1.year < c2.year {
      DaysBeforeYearMonotone(c1.year, c2.year);
    } else if c2.year < c1.year {
      DaysBeforeYearMonotone(c2.year, c1.year);
    }
    assert c1.year == c2.year;
  }

  /** Day numbers and calendar dates are in one-to-one correspondence. */
  lemma ToCivilOfDayNumber(c: Civil)
    requires Valid(c)
    ensures ToCivil(DayNumber(c)) == c
  {
    DayNumberInjective(ToCivil(DayNumber(c)), c);
  }

  /** Day n lies in year y when it is on or after the first of January of y
      and before that of the next year. */
  predicate InYear(n: nat, y: int)
    requires y >= 1
  {
    DaysBeforeYear(y) <= n < DaysBeforeYear(y) + DaysInYear(y)
  }

  /** The day after a day of year y1 is not in an earlier year. */
  lemma NotEarlierYear(n: nat, y1: int, y2: int)
    requires 1 <= y2 < y1 && InYear(n, y1)
    ensures !InYear(n + 1, y2)
  {
    DaysBeforeYearMonotone(y2, y1);
  }

  /** The day after a day of year y1 is not beyond the next year. */
  lemma NotBeyondNextYear(n: nat, y1: int, y2: int)
    requires 1 <= y1 && y1 + 1 < y2 && InYear(n, y1)
    ensures !InYear(n + 1, y2)
  {
    DaysBeforeNextYear(y1);
    DaysBeforeYearMonotone(y1 + 1, y2);
  }

  /** When the day after a day of year y1 is in the next year, it is that
      year's first day. */
  lemma FirstOfNextYear(n: nat, y1: int)
    requires 1 <= y1 && InYear(n, y1) && InYear(n + 1, y1 + 1)
    ensures n + 1 == DaysBeforeYear(y1 + 1)
  {
    DaysBeforeNextYear(y1);
  }

  /** If day n lies in year y1 and day n + 1 in year y2, then y2 is y1, or
      y2 is the next year and n + 1 is its first day. */
  lemma NextDayYear(n: nat, y1: int, y2: int)
    requires 1 <= y1 && InYear(n, y1)
    requires 1 <= y2 && InYear(n + 1, y2)
    ensures y2 == y1 || (y2 == y1 + 1 && n + 1 == DaysBeforeYear(y2))
  {
    if y2 < y1 {
      NotEarlierYear(n, y1, y2);
    } else if y2 > y1 + 1 {
      NotBeyondNextYear(n, y1, y2);
    } else if y2 == y1 + 1 {
      FirstOfNextYear(n, y1);
    }
  }

  /** The day after d lies in the year of d or, when d is the last day of its
      year, in the next year, starting it. */
  lemma SuccessorYear(d: Day)
    ensures var y := ToCivil(d).year;
      || ToCivil(d + 1).year == y
      || (ToCivil(d + 1).year == y + 1 && d + 1 == DaysBeforeYear(y + 1))
  {
    var c, c' := ToCivil(d), ToCivil(d + 1);
    DayNumberWithinYear(c);
    DayNumberWithinYear(c');
    NextDayYear(d, c.year, c'.year);
  }

  /** The ordinal advances by one from day to day within a year, and the day
      after the last day of a year is the first of January of the next. */
  lemma DayOfYearSuccessor(d: Day)
    ensures ToCivil(d + 1).year == ToCivil(d).year ==> DayOfYear(d + 1) == DayOfYear(d) + 1
    ensures ToCivil(d + 1).year != ToCivil(d).year ==>
      ToCivil(d + 1) == Civil(ToCivil(d).year + 1, 1, 1) && DayOfYear(d + 1) == 1
  {
    var y := ToCivil(d).year;
    SuccessorYear(d);
    if ToCivil(d + 1).year != y {
      var first := Civil(y + 1, 1, 1);
      assert DayNumber(first) == d + 1;
      ToCivilOfDayNumber(first);
    }
  }

  /** Day 0 is the first of January of year 1, the first day of its year. */
  lemma FirstDay()
    ensures ToCivil(0) == Civil(1, 1, 1) && DayOfYear(0) == 1
  {
    var first := Civil(1, 1, 1);
    assert DayNumber(first) == 0;
    ToCivilOfDayNumber(first);
  }
}
