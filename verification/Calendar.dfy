/**
 The proleptic Gregorian calendar in UTC, as ECMAScript dates compute it: times are milliseconds and days
 are day numbers, both counted from 1970-01-01. Months are numbered through: month m of year y (m from 0)
 is 12 * y + m.
 */
module Calendar {
  const DAY_MS := 86400000

  function DayOf(ms: int): int {
    ms / DAY_MS
  }

  function WeekDay(day: int): (r: nat)
    ensures r < 7
  {
    (day + 4) % 7
  }

  const EPOCH_MONTH := 12 * 1970

  predicate Leap(y: int) {
    y % 4 == 0 && (y % 100 != 0 || y % 400 == 0)
  }

  function MonthLength(m: int): (days: int)
    ensures 28 <= days <= 31
  {
    var month := m % 12;
    if month == 1 then (if Leap(m / 12) then 29 else 28)
    else if month == 3 || month == 5 || month == 8 || month == 10 then 30
    else 31
  }

  /** The day number of the first of a month. */
  function MonthStart(m: int): int
    decreases if m < EPOCH_MONTH then EPOCH_MONTH - m else m - EPOCH_MONTH
  {
    if m == EPOCH_MONTH then 0
    else if m > EPOCH_MONTH then MonthStart(m - 1) + MonthLength(m - 1)
    else MonthStart(m + 1) - MonthLength(m)
  }

  lemma MonthStep(m: int)
    ensures MonthStart(m + 1) == MonthStart(m) + MonthLength(m)
  {
  }

  /** The closed form ECMAScript gives for the first day of a year. */
  function DayFromYear(y: int): int {
    365 * (y - 1970) + (y - 1969) / 4 - (y - 1901) / 100 + (y - 1601) / 400
  }

  lemma FourthsStep(y: int)
    ensures (y + 1 - 1969) / 4 - (y - 1969) / 4 == if y % 4 == 0 then 1 else 0
  {
  }

  lemma CenturiesStep(y: int)
    ensures (y + 1 - 1901) / 100 - (y - 1901) / 100 == if y % 100 == 0 then 1 else 0
  {
  }

  lemma FourCenturiesStep(y: int)
    ensures (y + 1 - 1601) / 400 - (y - 1601) / 400 == if y % 400 == 0 then 1 else 0
  {
  }

  lemma Hundreds(k: int)
    ensures (100 * k) % 100 == 0
  {
  }

  lemma Fours(k: int)
    ensures (4 * k) % 4 == 0
  {
  }

  lemma CenturyDivisors(y: int)
    ensures y % 400 == 0 ==> y % 100 == 0
    ensures y % 100 == 0 ==> y % 4 == 0
  {
    Hundreds(4 * (y / 400));
    Fours(25 * (y / 100));
  }

  lemma YearLength(y: int)
    ensures DayFromYear(y + 1) - DayFromYear(y) == if Leap(y) then 366 else 365
  {
    FourthsStep(y);
    CenturiesStep(y);
    FourCenturiesStep(y);
    CenturyDivisors(y);
  }

  lemma LengthInYear(y: int, month: nat)
    requires month < 12
    ensures MonthLength(12 * y + month) ==
            if month == 1 then (if Leap(y) then 29 else 28)
            else if month == 3 || month == 5 || month == 8 || month == 10 then 30
            else 31
  {
    assert (12 * y + month) / 12 == y && (12 * y + month) % 12 == month;
  }

  lemma Quarter(y: int, month: nat)
    requires month + 2 < 12
    ensures MonthStart(12 * y + month + 3) - MonthStart(12 * y + month) ==
            MonthLength(12 * y + month) + MonthLength(12 * y + month + 1) + MonthLength(12 * y + month + 2)
  {
    MonthStep(12 * y + month);
    MonthStep(12 * y + month + 1);
    MonthStep(12 * y + month + 2);
  }

  lemma QuarterDays(y: int, month: nat)
    requires month == 0 || month == 3 || month == 6 || month == 9
    ensures MonthStart(12 * y + month + 3) - MonthStart(12 * y + month) ==
            if month == 0 then (if Leap(y) then 91 else 90) else if month == 3 then 91 else 92
  {
    Quarter(y, month);
    LengthInYear(y, month);
    LengthInYear(y, month + 1);
    LengthInYear(y, month + 2);
  }

  lemma TwelveMonths(y: int)
    ensures MonthStart(12 * (y + 1)) - MonthStart(12 * y) == if Leap(y) then 366 else 365
  {
    QuarterDays(y, 0);
    QuarterDays(y, 3);
    QuarterDays(y, 6);
    QuarterDays(y, 9);
  }

  /** Counting month by month agrees with the closed form, for every year. */
  lemma {:induction false} YearsStartWhereTheFormulaSays(y: int)
    ensures MonthStart(12 * y) == DayFromYear(y)
    decreases if y < 1970 then 1970 - y else y - 1970
  {
    if y > 1970 {
      YearsStartWhereTheFormulaSays(y - 1);
      TwelveMonths(y - 1);
      YearLength(y - 1);
    } else if y < 1970 {
      YearsStartWhereTheFormulaSays(y + 1);
      TwelveMonths(y);
      YearLength(y);
    }
  }

  /** A later month starts no earlier than the end of an earlier one. */
  lemma MonthsDoNotOverlap(day: int, m: int, day': int, n: int)
    requires InMonth(day, m) && InMonth(day', n) && m < n
    ensures day < day'
  {
    if m + 1 < n {
      MonthStartsClimb(m + 1, n);
    }
  }

  lemma {:induction false} MonthStartsClimb(m: int, n: int)
    requires m < n
    ensures MonthStart(m) < MonthStart(n)
    decreases n - m
  {
    MonthStep(n - 1);
    if m < n - 1 {
      MonthStartsClimb(m, n - 1);
    }
  }

  predicate InMonth(day: int, m: int) {
    MonthStart(m) <= day < MonthStart(m + 1)
  }

  /** How far a guess at the month of a day is off. */
  function Gap(day: int, guess: int): int {
    if day < MonthStart(guess) then MonthStart(guess) - day
    else if MonthStart(guess + 1) <= day then day - MonthStart(guess + 1) + 1
    else 0
  }

  lemma GapShrinks(day: int, guess: int)
    ensures day < MonthStart(guess) ==> 0 <= Gap(day, guess - 1) < Gap(day, guess)
    ensures MonthStart(guess + 1) <= day ==> 0 <= Gap(day, guess + 1) < Gap(day, guess)
  {
    MonthStep(guess - 1);
    MonthStep(guess + 1);
  }

  function MonthNear(day: int, guess: int): (m: int)
    ensures InMonth(day, m)
    decreases Gap(day, guess)
  {
    GapShrinks(day, guess);
    if day < MonthStart(guess) then MonthNear(day, guess - 1)
    else if MonthStart(guess + 1) <= day then MonthNear(day, guess + 1)
    else guess
  }

  /** The month a day falls in. */
  function MonthOf(day: int): (m: int)
    ensures InMonth(day, m)
  {
    MonthNear(day, EPOCH_MONTH)
  }

  lemma MonthUnique(day: int, m: int)
    requires InMonth(day, m)
    ensures MonthOf(day) == m
  {
    var n := MonthOf(day);
    if m < n {
      MonthsDoNotOverlap(day, m, day, n);
    } else if n < m {
      MonthsDoNotOverlap(day, n, day, m);
    }
  }

  function YearOf(day: int): int {
    MonthOf(day) / 12
  }

  /** Day of the month, from 1. */
  function DateOf(day: int): (d: int)
    ensures 1 <= d <= 31
  {
    MonthStep(MonthOf(day));
    day - MonthStart(MonthOf(day)) + 1
  }

  /** Days are ordered as their (month, date) pairs. */
  lemma DaysOrderAsDates(a: int, b: int)
    ensures a < b <==> MonthOf(a) < MonthOf(b) || (MonthOf(a) == MonthOf(b) && DateOf(a) < DateOf(b))
  {
    if MonthOf(a) < MonthOf(b) {
      MonthsDoNotOverlap(a, MonthOf(a), b, MonthOf(b));
    } else if MonthOf(b) < MonthOf(a) {
      MonthsDoNotOverlap(b, MonthOf(b), a, MonthOf(a));
    }
  }
}
