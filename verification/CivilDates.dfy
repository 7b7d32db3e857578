/** Civil dates and their arithmetic as section 21.4.1 of ECMA-262 defines it: a date is a day
number, counted from 1 January 1970, and year, month and day are read off that number. */
module CivilDates {

  datatype Date = Date(year: int, month: int, day: int)

  predicate Leap(y: int) { y % 4 == 0 && (y % 100 != 0 || y % 400 == 0) }

  function DaysInYear(y: int): int { if Leap(y) then 366 else 365 }

  /** The number of the first day of year y: counted year by year. */
  function DayFromYear(y: int): int
    decreases if y < 1970 then 1970 - y else y - 1970
  {
    if y == 1970 then 0
    else if y > 1970 then DayFromYear(y - 1) + DaysInYear(y - 1)
    else DayFromYear(y + 1) - DaysInYear(y)
  }

  function MonthLength(m: int, leap: bool): int {
    if m == 2 then (if leap then 29 else 28)
    else if m == 4 || m == 6 || m == 9 || m == 11 then 30
    else 31
  }

  /** Days of the year before month m. */
  function DaysBefore(m: int, leap: bool): (days: int)
    ensures 0 <= days
    decreases m
  {
    if m <= 1 then 0 else DaysBefore(m - 1, leap) + MonthLength(m - 1, leap)
  }

  predicate Valid(d: Date) {
    1 <= d.month <= 12 && 1 <= d.day <= MonthLength(d.month, Leap(d.year))
  }

  function DayNumber(d: Date): int {
    DayFromYear(d.year) + DaysBefore(d.month, Leap(d.year)) + d.day - 1
  }

  // ---------------------------------------------------------------- years

  lemma YearStep(y: int)
    ensures DayFromYear(y + 1) == DayFromYear(y) + DaysInYear(y)
  {
  }

  lemma FourStep(y: int)
    ensures (y + 1 - 1969) / 4 == (y - 1969) / 4 + if y % 4 == 0 then 1 else 0
  {
  }

  lemma HundredStep(y: int)
    ensures (y + 1 - 1901) / 100 == (y - 1901) / 100 + if y % 100 == 0 then 1 else 0
  {
  }

  lemma FourHundredStep(y: int)
    ensures (y + 1 - 1601) / 400 == (y - 1601) / 400 + if y % 400 == 0 then 1 else 0
  {
  }

  lemma LeapDays(y: int)
    ensures DaysInYear(y) == 365 + (if y % 4 == 0 then 1 else 0) - (if y % 100 == 0 then 1 else 0)
                                 + (if y % 400 == 0 then 1 else 0)
  {
  }

  lemma FormulaStep(y: int)
    ensures YearFormula(y + 1) == YearFormula(y) + DaysInYear(y)
  {
    hide DaysInYear;
    FourStep(y);
    HundredStep(y);
    FourHundredStep(y);
    LeapDays(y);
  }

  /** DayFromYear as section 21.4.1.3 of ECMA-262 writes it. */
  function YearFormula(y: int): int {
    365 * (y - 1970) + (y - 1969) / 4 - (y - 1901) / 100 + (y - 1601) / 400
  }

  /** The standard's formula counts the leap years right, for every year. */
  lemma {:induction false} YearFormulaCounts(y: int)
    ensures DayFromYear(y) == YearFormula(y)
    decreases if y < 1970 then 1970 - y else y - 1970
  {
    if y > 1970 {
      YearFormulaCounts(y - 1);
      FormulaStep(y - 1);
    } else if y < 1970 {
      YearFormulaCounts(y + 1);
      FormulaStep(y);
    }
  }

  lemma {:induction false} YearsApart(y: int, z: int)
    requires y <= z
    ensures DayFromYear(y) + 365 * (z - y) <= DayFromYear(z)
    decreases z - y
  {
    if y < z {
      YearStep(y);
      YearsApart(y + 1, z);
    }
  }

  /** The year a day lies in: the largest whose first day is not after it. */
  function YearOf(n: int): (y: int)
    ensures DayFromYear(y) <= n < DayFromYear(y + 1)
  {
    if n < 0 then YearDown(1970, n) else YearUp(1970, n)
  }

  function YearUp(y: int, n: int): (r: int)
    requires DayFromYear(y) <= n
    ensures DayFromYear(r) <= n < DayFromYear(r + 1)
    decreases n - DayFromYear(y)
  {
    YearStep(y);
    if n < DayFromYear(y + 1) then y else YearUp(y + 1, n)
  }

  function YearDown(y: int, n: int): (r: int)
    requires n < DayFromYear(y + 1)
    ensures DayFromYear(r) <= n < DayFromYear(r + 1)
    decreases DayFromYear(y + 1) - n
  {
    YearStep(y);
    if DayFromYear(y) <= n then y else YearDown(y - 1, n)
  }

  // ---------------------------------------------------------------- dates

  function MonthOf(dayInYear: int, leap: bool): (m: int)
    requires 0 <= dayInYear < DaysBefore(13, leap)
    ensures 1 <= m <= 12 && DaysBefore(m, leap) <= dayInYear < DaysBefore(m + 1, leap)
  {
    MonthFrom(1, dayInYear, leap)
  }

  function MonthFrom(m: int, dayInYear: int, leap: bool): (r: int)
    requires 1 <= m <= 12 && DaysBefore(m, leap) <= dayInYear < DaysBefore(13, leap)
    ensures 1 <= r <= 12 && DaysBefore(r, leap) <= dayInYear < DaysBefore(r + 1, leap)
    decreases 12 - m
  {
    if dayInYear < DaysBefore(m + 1, leap) then m else MonthFrom(m + 1, dayInYear, leap)
  }

  /** Every day number is the number of exactly one date (with DayNumberInjective). */
  function FromDayNumber(n: int): (d: Date)
    ensures Valid(d) && DayNumber(d) == n && d.year == YearOf(n)
  {
    var y := YearOf(n);
    YearStep(y);
    WholeYear(Leap(y));
    var dayInYear := n - DayFromYear(y);
    var m := MonthOf(dayInYear, Leap(y));
    Date(y, m, dayInYear - DaysBefore(m, Leap(y)) + 1)
  }

  predicate Earlier(a: Date, b: Date) {
    || a.year < b.year
    || (a.year == b.year && a.month < b.month)
    || (a.year == b.year && a.month == b.month && a.day < b.day)
  }

  lemma {:induction false} DaysBeforeMonotone(m: int, n: int, leap: bool)
    requires 0 <= m < n
    ensures DaysBefore(m + 1, leap) <= DaysBefore(n, leap)
    decreases n
  {
    if m + 1 < n { DaysBeforeMonotone(m, n - 1, leap); }
  }

  lemma WholeYear(leap: bool)
    ensures DaysBefore(13, leap) == if leap then 366 else 365
  {
  }

  lemma DayInYear(d: Date)
    requires Valid(d)
    ensures DayFromYear(d.year) <= DayNumber(d) < DayFromYear(d.year + 1)
  {
    YearStep(d.year);
    WholeYear(Leap(d.year));
    DaysBeforeMonotone(0, d.month, Leap(d.year));
    DaysBeforeMonotone(d.month, 13, Leap(d.year));
  }

  lemma EarlierHasSmallerNumber(a: Date, b: Date)
    requires Valid(a) && Valid(b) && Earlier(a, b)
    ensures DayNumber(a) < DayNumber(b)
  {
    if a.year < b.year {
      DayInYear(a);
      DayInYear(b);
      YearsApart(a.year + 1, b.year);
    } else if a.month < b.month {
      DaysBeforeMonotone(a.month, b.month, Leap(a.year));
    }
  }

  /** Counting days keeps the calendar's order, both ways. */
  lemma DayNumberOrder(a: Date, b: Date)
    requires Valid(a) && Valid(b)
    ensures DayNumber(a) < DayNumber(b) <==> Earlier(a, b)
    ensures DayNumber(a) == DayNumber(b) <==> a == b
  {
    if Earlier(a, b) { EarlierHasSmallerNumber(a, b); }
    if Earlier(b, a) { EarlierHasSmallerNumber(b, a); }
    assert Earlier(a, b) || Earlier(b, a) || a == b;
  }

  lemma FromDayNumberOf(d: Date)
    requires Valid(d)
    ensures FromDayNumber(DayNumber(d)) == d
  {
    DayNumberOrder(FromDayNumber(DayNumber(d)), d);
  }

  // ---------------------------------------------------------------- Date objects

  /** date.setDate(n): day n of the same month, rolling over months and years. */
  function SetDate(d: Date, n: int): (r: Date)
    requires Valid(d)
    ensures Valid(r) && DayNumber(r) == DayNumber(d) - d.day + n
  {
    FromDayNumber(DayNumber(d) - d.day + n)
  }

  /** new Date(year, month, day) with month counted from 1: out-of-range months and days roll
      over, and a year from 0 to 99 means 1900 to 1999. */
  function NewDate(year: int, month: int, day: int): (d: Date)
    ensures Valid(d)
  {
    var y := (if 0 <= year <= 99 then 1900 + year else year) + (month - 1) / 12;
    FromDayNumber(DayFromYear(y) + DaysBefore((month - 1) % 12 + 1, Leap(y)) + day - 1)
  }

  /** Sunday is 0. */
  function WeekDay(d: Date): int {
    (DayNumber(d) + 4) % 7
  }

  /** The day after: the calendar's own rule, which setDate with one day more must follow. */
  function Tomorrow(d: Date): Date
    requires Valid(d)
  {
    if d.day < MonthLength(d.month, Leap(d.year)) then d.(day := d.day + 1)
    else if d.month < 12 then Date(d.year, d.month + 1, 1)
    else Date(d.year + 1, 1, 1)
  }

  lemma MonthStep(m: int, leap: bool)
    requires 1 <= m
    ensures DaysBefore(m + 1, leap) == DaysBefore(m, leap) + MonthLength(m, leap)
    ensures DaysBefore(1, leap) == 0
    ensures MonthLength(m, leap) >= 1
  {
  }

  lemma TomorrowNumber(d: Date)
    requires Valid(d)
    ensures Valid(Tomorrow(d)) && DayNumber(Tomorrow(d)) == DayNumber(d) + 1
  {
    hide DayFromYear, DaysBefore, MonthLength, Leap;
    MonthStep(d.month, Leap(d.year));
    if d.month < 12 {
      MonthStep(d.month + 1, Leap(d.year));
    } else {
      MonthStep(1, Leap(d.year + 1));
      WholeYear(Leap(d.year));
      YearStep(d.year);
    }
  }

  lemma SetDateRollsOver(d: Date)
    requires Valid(d)
    ensures SetDate(d, d.day + 1) == Tomorrow(d)
  {
    TomorrowNumber(d);
    FromDayNumberOf(Tomorrow(d));
  }

  /** The day of the year on which each month starts, as the standard lists them. */
  lemma MonthsStart(leap: bool)
    ensures var l := if leap then 1 else 0;
            && DaysBefore(1, leap) == 0 && DaysBefore(2, leap) == 31 && DaysBefore(3, leap) == 59 + l
            && DaysBefore(4, leap) == 90 + l && DaysBefore(5, leap) == 120 + l && DaysBefore(6, leap) == 151 + l
            && DaysBefore(7, leap) == 181 + l && DaysBefore(8, leap) == 212 + l && DaysBefore(9, leap) == 243 + l
            && DaysBefore(10, leap) == 273 + l && DaysBefore(11, leap) == 304 + l && DaysBefore(12, leap) == 334 + l
            && DaysBefore(13, leap) == 365 + l
  {
    assert DaysBefore(4, leap) == DaysBefore(3, leap) + 31;
    assert DaysBefore(7, leap) == DaysBefore(6, leap) + 30;
    assert DaysBefore(10, leap) == DaysBefore(9, leap) + 30;
  }

  /** 1 January 1970 was a Thursday, and the days of the week follow one another. */
  lemma WeekDaysFollow(d: Date)
    requires Valid(d)
    ensures WeekDay(Date(1970, 1, 1)) == 4
    ensures WeekDay(Tomorrow(d)) == if WeekDay(d) == 6 then 0 else WeekDay(d) + 1
  {
    FirstDay();
    hide DayNumber, DayFromYear, DaysBefore, Leap, Tomorrow, MonthLength;
    TomorrowNumber(d);
    NextInWeek(DayNumber(d) + 4);
  }

  lemma FirstDay()
    ensures DayNumber(Date(1970, 1, 1)) == 0
  {
    hide Leap;
    assert DaysBefore(1, Leap(1970)) == 0;
  }

  lemma NextInWeek(n: int)
    ensures (n + 1) % 7 == if n % 7 == 6 then 0 else n % 7 + 1
  {
  }

  /** A Date made of any numbers: one day more is the next day, twelve months more the same day of
      the next year, and a year below 100 is one of the 1900s. */
  lemma NewDateRolls(year: int, month: int, day: int)
    ensures DayNumber(NewDate(year, month, day + 1)) == DayNumber(NewDate(year, month, day)) + 1
    ensures year >= 100 ==> NewDate(year, month + 12, day) == NewDate(year + 1, month, day)
    ensures 0 <= year <= 99 ==> NewDate(year, month, day) == NewDate(1900 + year, month, day)
  {
    hide DayNumber, DayFromYear, DaysBefore, Leap;
    TwelveMonths(month);
  }

  lemma TwelveMonths(month: int)
    ensures (month + 12 - 1) / 12 == (month - 1) / 12 + 1 && (month + 12 - 1) % 12 == (month - 1) % 12
  {
  }
}
