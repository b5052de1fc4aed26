/** Proleptic Gregorian calendar arithmetic shared by the scripts: the leap
    rule, month and year lengths, day-of-year, and an absolute day count that
    serves as the reference against which the scripts' field-wise date
    arithmetic is judged. */
module Calendar {

  /** The leap rule exactly as the scripts write it,
      `y%400==0 or (y%4==0 and y%100!=0)` (Python's `and` binds tighter than
      `or`). For a positive divisor Dafny's `%` and Python's `%` agree: both
      give a remainder in 0..divisor-1, also for negative years. */
  predicate IsLeap(y: int) {
    y % 400 == 0 || (y % 4 == 0 && y % 100 != 0)
  }

  function YearLength(y: int): int {
    if IsLeap(y) then 366 else 365
  }

  function MonthLength(y: int, m: int): int
    requires 1 <= m <= 12
  {
    if m == 2 then (if IsLeap(y) then 29 else 28)
    else if m == 4 || m == 6 || m == 9 || m == 11 then 30
    else 31
  }

  /** Number of days in the months before month m of year y; m == 13 counts
      the whole year. */
  function DaysBeforeMonth(y: int, m: int): int
    requires 1 <= m <= 13
    decreases m
  {
    if m == 1 then 0 else DaysBeforeMonth(y, m - 1) + MonthLength(y, m - 1)
  }

  predicate ValidDate(y: int, m: int, d: int) {
    1 <= m <= 12 && 1 <= d <= MonthLength(y, m)
  }

  /** The ordinal day within the year (1 January is day 1). */
  function DayOfYear(y: int, m: int, d: int): int
    requires 1 <= m <= 12
  {
    DaysBeforeMonth(y, m) + d
  }

  /** The twelve month lengths add up to the year length. */
  lemma MonthsFillYear(y: int)
    ensures DaysBeforeMonth(y, 13) == YearLength(y)
  {
    assert DaysBeforeMonth(y, 3) == 59 + (if IsLeap(y) then 1 else 0);
    assert DaysBeforeMonth(y, 7) == DaysBeforeMonth(y, 3) + 122;
    assert DaysBeforeMonth(y, 10) == DaysBeforeMonth(y, 7) + 92;
  }

  /** Later months start later, by at least the length of the earlier month. */
  lemma {:induction false} MonthsIncrease(y: int, a: int, b: int)
    requires 1 <= a < b <= 13
    ensures DaysBeforeMonth(y, a) + MonthLength(y, a) <= DaysBeforeMonth(y, b)
    decreases b - a
  {
    if a + 1 < b {
      MonthsIncrease(y, a + 1, b);
    }
  }

  /** A valid date falls inside its year. */
  lemma DayOfYearInYear(y: int, m: int, d: int)
    requires ValidDate(y, m, d)
    ensures 1 <= DayOfYear(y, m, d) <= YearLength(y)
  {
    MonthsFillYear(y);
    if m < 12 {
      MonthsIncrease(y, m, 13);
    }
  }

  /** The month, searching downwards from month m, in which day doy falls. */
  function MonthOf(y: int, doy: int, m: int): (r: int)
    requires 1 <= m <= 12
    requires 1 <= doy <= DaysBeforeMonth(y, m + 1)
    ensures 1 <= r <= m
    ensures DaysBeforeMonth(y, r) < doy <= DaysBeforeMonth(y, r + 1)
    decreases m
  {
    if doy > DaysBeforeMonth(y, m) then m else MonthOf(y, doy, m - 1)
  }

  /** The (month, day) on which ordinal day doy of year y falls. */
  function MonthDay(y: int, doy: int): (r: (int, int))
    requires 1 <= doy <= YearLength(y)
    ensures ValidDate(y, r.0, r.1)
    ensures DayOfYear(y, r.0, r.1) == doy
  {
    MonthsFillYear(y);
    var m := MonthOf(y, doy, 12);
    (m, doy - DaysBeforeMonth(y, m))
  }

  /** MonthDay inverts DayOfYear on valid dates. */
  lemma MonthDayOfDate(y: int, m: int, d: int)
    requires ValidDate(y, m, d)
    ensures 1 <= DayOfYear(y, m, d) <= YearLength(y) && MonthDay(y, DayOfYear(y, m, d)) == (m, d)
  {
    DayOfYearInYear(y, m, d);
    var r := MonthDay(y, DayOfYear(y, m, d));
    if r.0 < m {
      MonthsIncrease(y, r.0, m);
    } else if r.0 > m {
      MonthsIncrease(y, m, r.0);
    }
  }

  /** Days from 1 January of year 1 to 1 January of year y in the proleptic
      Gregorian calendar (negative before year 1). Dafny's `/` by a positive
      constant is floor division. */
  function DaysBeforeYear(y: int): int {
    var p := y - 1;
    365 * p + p / 4 - p / 100 + p / 400
  }

  lemma FloorStep4(p: int)
    ensures (p + 1) / 4 - p / 4 == if (p + 1) % 4 == 0 then 1 else 0
  {
    var q, r := p / 4, p % 4;
    assert p == 4 * q + r && 0 <= r < 4;
    if r == 3 {
      assert p + 1 == 4 * (q + 1);
    } else {
      assert p + 1 == 4 * q + (r + 1);
    }
  }

  lemma FloorStep100(p: int)
    ensures (p + 1) / 100 - p / 100 == if (p + 1) % 100 == 0 then 1 else 0
  {
    var q, r := p / 100, p % 100;
    assert p == 100 * q + r && 0 <= r < 100;
    if r == 99 {
      assert p + 1 == 100 * (q + 1);
    } else {
      assert p + 1 == 100 * q + (r + 1);
    }
  }

  lemma FloorStep400(p: int)
    ensures (p + 1) / 400 - p / 400 == if (p + 1) % 400 == 0 then 1 else 0
  {
    var q, r := p / 400, p % 400;
    assert p == 400 * q + r && 0 <= r < 400;
    if r == 399 {
      assert p + 1 == 400 * (q + 1);
    } else {
      assert p + 1 == 400 * q + (r + 1);
    }
  }

  /** Consecutive year starts are one year length apart. */
  lemma YearStep(y: int)
    ensures DaysBeforeYear(y + 1) == DaysBeforeYear(y) + YearLength(y)
  {
    var p := y - 1;
    FloorStep4(p);
    FloorStep100(p);
    FloorStep400(p);
    DivisorChain(y);
    assert DaysBeforeYear(y + 1) - DaysBeforeYear(y)
      == 365 + ((p + 1) / 4 - p / 4) - ((p + 1) / 100 - p / 100) + ((p + 1) / 400 - p / 400);
  }

  /** A multiple of 400 is a multiple of 100, which is a multiple of 4. */
  lemma DivisorChain(y: int)
    ensures y % 400 == 0 ==> y % 100 == 0
    ensures y % 100 == 0 ==> y % 4 == 0
  {
    var q400, q100 := y / 400, y / 100;
    assert y == 400 * q400 + y % 400;
    assert y == 100 * q100 + y % 100;
    if y % 400 == 0 {
      MultipleMod100(4 * q400);
    }
    if y % 100 == 0 {
      MultipleMod4(25 * q100);
    }
  }

  lemma MultipleMod100(k: int)
    ensures (100 * k) % 100 == 0
  {
  }

  lemma MultipleMod4(k: int)
    ensures (4 * k) % 4 == 0
  {
  }

  /** An absolute day number: day d of year y, counted so that 1 January of
      year 1 is day 1. Day numbers outside 1..YearLength(y) still denote a day
      (day 0 is the last day of the year before). */
  function DayNumber(y: int, d: int): int {
    DaysBeforeYear(y) + d
  }

  /** Moves (y, d) to the year in which day d of year y actually falls. */
  function Normalize(y: int, d: int): (r: (int, int))
    ensures 1 <= r.1 <= YearLength(r.0)
    ensures DayNumber(r.0, r.1) == DayNumber(y, d)
    decreases if d <= 0 then 1 - d else 0, if d >= 1 then d else 0
  {
    YearStep(y - 1);
    YearStep(y);
    if d <= 0 then Normalize(y - 1, d + YearLength(y - 1))
    else if d > YearLength(y) then Normalize(y + 1, d - YearLength(y))
    else (y, d)
  }

  /** Two consecutive years are never both leap years. */
  lemma NoConsecutiveLeapYears(y: int)
    ensures !(IsLeap(y) && IsLeap(y + 1))
  {
  }
}
