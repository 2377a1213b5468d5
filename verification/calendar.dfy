/**
  Gregorian calendar arithmetic used by the date parser: the leap-year rule,
  month lengths, and a day count (`Ordinal`) that lets a day number past the
  end of a month be carried into the following months the way a lenient
  calendar does.
*/
module Calendar {

  /** A calendar date; `month` is 1-based (January is 1). */
  datatype Date = Date(year: int, month: int, day: int)

  /** Divisible by 4, except centuries, which must be divisible by 400. */
  predicate IsLeapYear(y: int) {
    y % 4 == 0 && (y % 100 != 0 || y % 400 == 0)
  }

  function DaysInMonth(y: int, m: int): (n: int)
    requires 1 <= m <= 12
    ensures 28 <= n <= 31
  {
    if m == 2 then (if IsLeapYear(y) then 29 else 28)
    else if m == 4 || m == 6 || m == 9 || m == 11 then 30
    else 31
  }

  /** A date that names a day that exists. */
  predicate ValidDate(d: Date) {
    1 <= d.month <= 12 && 1 <= d.day <= DaysInMonth(d.year, d.month)
  }

  /**
    Days from 1 January of year 1 to 1 January of year `y`, counted with the
    closed formula of the Gregorian cycle (365 days a year, plus one every
    fourth year, minus one every century, plus one every fourth century).
    It does not consult `IsLeapYear`, so `YearLength` relates two independent
    statements of the leap rule.
  */
  function DaysBeforeYear(y: int): int {
    var p := y - 1;
    365 * p + p / 4 - p / 100 + p / 400
  }

  /** Days of year `y` before the first of month `m` (13 stands for the next year). */
  function DaysBeforeMonth(y: int, m: int): int
    requires 1 <= m <= 13
  {
    if m == 1 then 0 else DaysBeforeMonth(y, m - 1) + DaysInMonth(y, m - 1)
  }

  /** The day number of `d`, counting 1 January of year 1 as day 0. */
  function Ordinal(d: Date): int
    requires 1 <= d.month <= 12
  {
    DaysBeforeYear(d.year) + DaysBeforeMonth(d.year, d.month) + d.day - 1
  }

  lemma DivStep4(y: int)
    ensures y / 4 - (y - 1) / 4 == if y % 4 == 0 then 1 else 0
  {
  }

  lemma DivStep100(y: int)
    ensures y / 100 - (y - 1) / 100 == if y % 100 == 0 then 1 else 0
  {
  }

  lemma DivStep400(y: int)
    ensures y / 400 - (y - 1) / 400 == if y % 400 == 0 then 1 else 0
  {
  }

  /** Multiples of 400 are multiples of 100, which are multiples of 4. */
  lemma CenturyDivisibility(y: int)
    ensures y % 400 == 0 ==> y % 100 == 0
    ensures y % 100 == 0 ==> y % 4 == 0
  {
    if y % 400 == 0 {
      var k := y / 400;
      assert y == 100 * (4 * k);
    }
    if y % 100 == 0 {
      var k := y / 100;
      assert y == 4 * (25 * k);
    }
  }

  /** The twelve months add up to 337 days plus the length of February. */
  lemma MonthsOfYear(y: int)
    ensures DaysBeforeMonth(y, 13) == 337 + DaysInMonth(y, 2)
  {
    var feb := DaysInMonth(y, 2);
    assert DaysBeforeMonth(y, 2) == 31;
    assert DaysBeforeMonth(y, 3) == 31 + feb;
    assert DaysBeforeMonth(y, 4) == 62 + feb;
    assert DaysBeforeMonth(y, 5) == 92 + feb;
    assert DaysBeforeMonth(y, 6) == 123 + feb;
    assert DaysBeforeMonth(y, 7) == 153 + feb;
    assert DaysBeforeMonth(y, 8) == 184 + feb;
    assert DaysBeforeMonth(y, 9) == 215 + feb;
    assert DaysBeforeMonth(y, 10) == 245 + feb;
    assert DaysBeforeMonth(y, 11) == 276 + feb;
    assert DaysBeforeMonth(y, 12) == 306 + feb;
    assert DaysBeforeMonth(y, 13) == 337 + feb;
  }

  /** The closed formula grows by 366 across a leap year and by 365 otherwise. */
  lemma YearCountStep(y: int)
    ensures DaysBeforeYear(y + 1) - DaysBeforeYear(y) == if IsLeapYear(y) then 366 else 365
  {
    DivStep4(y);
    DivStep100(y);
    DivStep400(y);
    CenturyDivisibility(y);
  }

  /**
    The year `y` has 366 days exactly when it is a leap year, and the closed
    formula agrees with the sum of the month lengths.
  */
  lemma YearLength(y: int)
    ensures DaysBeforeYear(y + 1) == DaysBeforeYear(y) + DaysBeforeMonth(y, 13)
    ensures DaysBeforeMonth(y, 13) == if IsLeapYear(y) then 366 else 365
  {
    MonthsOfYear(y);
    YearCountStep(y);
  }

  /** The first of the month after (`y`, `m`) lies `DaysInMonth(y, m)` days later. */
  lemma NextMonthOrdinal(y: int, m: int)
    requires 1 <= m <= 12
    ensures m < 12 ==> Ordinal(Date(y, m + 1, 1)) == Ordinal(Date(y, m, 1)) + DaysInMonth(y, m)
    ensures m == 12 ==> Ordinal(Date(y + 1, 1, 1)) == Ordinal(Date(y, m, 1)) + DaysInMonth(y, m)
  {
    if m == 12 {
      YearLength(y);
    }
  }

  /**
    Lenient normalisation of "day `d` of month `m` of year `y`": a day number
    past the end of the month is carried into the following months (and
    years), as the source's calendar does with 29 February of a common year.
    The result is the valid date lying `d - 1` days after the first of the
    month, and a date that already exists is returned unchanged.
  */
  function Roll(y: int, m: int, d: int): (r: Date)
    requires 1 <= m <= 12 && 1 <= d
    ensures ValidDate(r)
    ensures Ordinal(r) == Ordinal(Date(y, m, 1)) + d - 1
    ensures d <= DaysInMonth(y, m) ==> r == Date(y, m, d)
    decreases d
  {
    var n := DaysInMonth(y, m);
    if d <= n then Date(y, m, d)
    else
      NextMonthOrdinal(y, m);
      if m == 12 then Roll(y + 1, 1, d - n) else Roll(y, m + 1, d - n)
  }

  /** Later months start no earlier in the year. */
  lemma {:induction false} MonthStartsMonotone(y: int, a: int, b: int)
    requires 1 <= a <= b <= 13
    ensures DaysBeforeMonth(y, a) <= DaysBeforeMonth(y, b)
    decreases b - a
  {
    if a < b {
      MonthStartsMonotone(y, a, b - 1);
    }
  }

  /** Later years start strictly later. */
  lemma {:induction false} YearStartsMonotone(a: int, b: int)
    requires a < b
    ensures DaysBeforeYear(a + 1) <= DaysBeforeYear(b)
    decreases b - a
  {
    if a + 1 < b {
      YearStartsMonotone(a, b - 1);
      YearLength(b - 1);
    }
  }

  /** An existing date lies within its own year and its own month. */
  lemma OrdinalBounds(d: Date)
    requires ValidDate(d)
    ensures DaysBeforeYear(d.year) <= Ordinal(d) < DaysBeforeYear(d.year + 1)
    ensures DaysBeforeMonth(d.year, d.month) <= Ordinal(d) - DaysBeforeYear(d.year) < DaysBeforeMonth(d.year, d.month + 1)
  {
    assert DaysBeforeMonth(d.year, d.month + 1) == DaysBeforeMonth(d.year, d.month) + DaysInMonth(d.year, d.month);
    MonthStartsMonotone(d.year, 1, d.month);
    MonthStartsMonotone(d.year, d.month + 1, 13);
    YearLength(d.year);
  }

  /** Different existing dates have different day numbers. */
  lemma OrdinalInjective(a: Date, b: Date)
    requires ValidDate(a) && ValidDate(b)
    requires Ordinal(a) == Ordinal(b)
    ensures a == b
  {
    OrdinalBounds(a);
    OrdinalBounds(b);
    if a.year < b.year {
      YearStartsMonotone(a.year, b.year);
    } else if b.year < a.year {
      YearStartsMonotone(b.year, a.year);
    } else if a.month < b.month {
      MonthStartsMonotone(a.year, a.month + 1, b.month);
    } else if b.month < a.month {
      MonthStartsMonotone(a.year, b.month + 1, a.month);
    }
  }

  /**
    The rolled-over date is the only existing date that lies `d - 1` days
    after the first of the month.
  */
  lemma RollUnique(y: int, m: int, d: int, r: Date)
    requires 1 <= m <= 12 && 1 <= d
    requires ValidDate(r) && Ordinal(r) == Ordinal(Date(y, m, 1)) + d - 1
    ensures r == Roll(y, m, d)
  {
    OrdinalInjective(r, Roll(y, m, d));
  }
}
