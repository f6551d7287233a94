/** The Gregorian calendar as a line: every day and every second has a number. */
module Calendar {

  predicate Leap(year: int) {
    year % 4 == 0 && (year % 100 != 0 || year % 400 == 0)
  }

  function YearDays(year: int): (n: int)
    ensures 365 <= n <= 366
  {
    if Leap(year) then 366 else 365
  }

  /** Days from the beginning of year 0 to the beginning of year. */
  function YearStart(year: int): int
    decreases if year < 0 then -year else year
  {
    if year == 0 then 0
    else if year > 0 then YearStart(year - 1) + YearDays(year - 1)
    else YearStart(year + 1) - YearDays(year)
  }

  /** Months are numbered from 0. */
  function MonthDays(year: int, mon: int): (n: int)
    requires 0 <= mon < 12
    ensures 28 <= n <= 31
  {
    match mon
    case 1 => if Leap(year) then 29 else 28
    case 3 | 5 | 8 | 10 => 30
    case _ => 31
  }

  /** Days of the year before the month. */
  function MonthStart(year: int, mon: int): int
    requires 0 <= mon <= 12
  {
    if mon == 0 then 0 else MonthStart(year, mon - 1) + MonthDays(year, mon - 1)
  }

  function DayNumber(year: int, mon: int, mday: int): int
    requires 0 <= mon < 12
  {
    YearStart(year) + MonthStart(year, mon) + mday
  }

  ghost predicate DateOk(year: int, mon: int, mday: int) {
    0 <= mon < 12 && 1 <= mday <= MonthDays(year, mon)
  }

  /** A year has as many days as its months. */
  lemma YearNext(year: int)
    ensures MonthStart(year, 12) == YearDays(year)
    ensures YearStart(year + 1) == YearStart(year) + YearDays(year)
  {
    MonthTable(year);
  }

  /** The first day of a year, by the rule for leap years. */
  lemma {:induction false} YearStartClosed(year: int)
    ensures YearStart(year) == 365 * year + (year - 1) / 4 - (year - 1) / 100 + (year - 1) / 400 + 1
    decreases if year < 0 then -year else year
  {
    if year > 0 {
      YearStartClosed(year - 1);
      LeapCount(year - 1);
    } else if year < 0 {
      YearStartClosed(year + 1);
      LeapCount(year);
    }
  }

  lemma LeapCount(year: int)
    ensures year / 4 - year / 100 + year / 400
            == (year - 1) / 4 - (year - 1) / 100 + (year - 1) / 400 + YearDays(year) - 365
  {
    Fourth(year);
    Hundredth(year);
    FourHundredth(year);
  }

  lemma Fourth(year: int)
    ensures year / 4 == (year - 1) / 4 + if year % 4 == 0 then 1 else 0
  {
  }

  lemma Hundredth(year: int)
    ensures year / 100 == (year - 1) / 100 + if year % 100 == 0 then 1 else 0
    ensures year % 100 == 0 ==> year % 4 == 0
  {
  }

  lemma FourHundredth(year: int)
    ensures year / 400 == (year - 1) / 400 + if year % 400 == 0 then 1 else 0
    ensures year % 400 == 0 ==> year % 100 == 0
  {
  }

  lemma MonthTable(year: int)
    ensures var l := if Leap(year) then 1 else 0;
      MonthStart(year, 1) == 31 && MonthStart(year, 2) == 59 + l && MonthStart(year, 3) == 90 + l
      && MonthStart(year, 6) == 181 + l && MonthStart(year, 9) == 273 + l && MonthStart(year, 12) == 365 + l
  {
    assert MonthStart(year, 0) == 0;
    assert MonthStart(year, 4) == MonthStart(year, 3) + 30;
    assert MonthStart(year, 5) == MonthStart(year, 4) + 31;
    assert MonthStart(year, 7) == MonthStart(year, 6) + 31;
    assert MonthStart(year, 8) == MonthStart(year, 7) + 31;
    assert MonthStart(year, 10) == MonthStart(year, 9) + 31;
    assert MonthStart(year, 11) == MonthStart(year, 10) + 30;
  }

  /** From March on, months have the lengths of the rule of 153 days to five of them. */
  lemma MonthStartClosed(year: int, mon: int)
    requires 2 <= mon <= 12
    ensures MonthStart(year, mon) == MonthStart(year, 2) + (153 * (mon - 2) + 2) / 5
    ensures MonthStart(year, 2) == if Leap(year) then 60 else 59
    ensures MonthStart(year, 1) == 31
  {
    MonthTable(year);
    assert MonthStart(year, 4) == MonthStart(year, 3) + 30;
    assert MonthStart(year, 5) == MonthStart(year, 4) + 31;
    assert MonthStart(year, 7) == MonthStart(year, 6) + 31;
    assert MonthStart(year, 8) == MonthStart(year, 7) + 31;
    assert MonthStart(year, 10) == MonthStart(year, 9) + 31;
    assert MonthStart(year, 11) == MonthStart(year, 10) + 30;
  }

  /** The days of a month are followed by those of the next. */
  lemma MonthNext(year: int, mon: int)
    requires 0 <= mon < 12
    ensures DayNumber(year, mon, MonthDays(year, mon)) + 1
            == if mon < 11 then DayNumber(year, mon + 1, 1) else DayNumber(year + 1, 0, 1)
  {
    YearNext(year);
    assert MonthStart(year, mon + 1) == MonthStart(year, mon) + MonthDays(year, mon);
    assert MonthStart(year + 1, 0) == 0;
  }

  lemma {:induction false} MonthStartBounds(year: int, mon: int)
    requires 0 <= mon < 12
    ensures 0 <= MonthStart(year, mon) && MonthStart(year, mon) + MonthDays(year, mon) <= MonthStart(year, 12)
    decreases 12 - mon
  {
    if mon == 11 {
      MonthTable(year);
    } else {
      MonthStartBounds(year, mon + 1);
      assert MonthStart(year, mon + 1) == MonthStart(year, mon) + MonthDays(year, mon);
    }
    MonthStartPositive(year, mon);
  }

  lemma {:induction false} MonthStartPositive(year: int, mon: int)
    requires 0 <= mon <= 12
    ensures MonthStart(year, mon) >= 28 * mon
  {
    if mon > 0 {
      MonthStartPositive(year, mon - 1);
    }
  }

  lemma {:induction false} YearStartOrder(year: int, later: int)
    requires year < later
    ensures YearStart(year) + MonthStart(year, 12) <= YearStart(later)
    decreases later - year
  {
    YearNext(year);
    if year + 1 < later {
      YearStartOrder(year + 1, later);
      MonthStartPositive(year + 1, 12);
    }
  }

  lemma {:induction false} MonthStartOrder(year: int, mon: int, later: int)
    requires 0 <= mon < later < 12
    ensures MonthStart(year, mon) + MonthDays(year, mon) <= MonthStart(year, later)
    decreases later - mon
  {
    if mon + 1 < later {
      MonthStartOrder(year, mon + 1, later);
    }
    assert MonthStart(year, mon + 1) == MonthStart(year, mon) + MonthDays(year, mon);
  }

  /** Dates are numbered in their order. */
  lemma DayOrder(y: int, m: int, d: int, y': int, m': int, d': int)
    requires DateOk(y, m, d) && DateOk(y', m', d')
    requires y < y' || (y == y' && (m < m' || (m == m' && d < d')))
    ensures DayNumber(y, m, d) < DayNumber(y', m', d')
  {
    if y < y' {
      YearStartOrder(y, y');
      MonthStartBounds(y, m);
      MonthStartPositive(y', m');
    } else if m < m' {
      MonthStartOrder(y, m, m');
    }
  }

  /** No two dates have the same number. */
  lemma DayUnique(y: int, m: int, d: int, y': int, m': int, d': int)
    requires DateOk(y, m, d) && DateOk(y', m', d') && DayNumber(y, m, d) == DayNumber(y', m', d')
    ensures y == y' && m == m' && d == d'
  {
    if y < y' || (y == y' && (m < m' || (m == m' && d < d'))) {
      DayOrder(y, m, d, y', m', d');
    } else if y' < y || (y == y' && (m' < m || (m == m' && d' < d))) {
      DayOrder(y', m', d', y, m, d);
    }
  }

  /** 0 is Sunday. */
  function Weekday(day: int): (w: int)
    ensures 0 <= w < 7
  {
    (day + 5) % 7
  }

  /** 1 January 2000 was a Saturday. */
  lemma WeekdayAnchor()
    ensures Weekday(DayNumber(2000, 0, 1)) == 6
  {
    YearStartClosed(2000);
    assert MonthStart(2000, 0) == 0;
  }

  lemma WeekdayMoved(day: int, days: int)
    ensures Weekday(day + days) == (Weekday(day) + days) % 7
  {
  }
}
