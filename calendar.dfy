/** Month lengths in the proleptic Gregorian calendar, as the picker obtains
    them from the JavaScript `Date` object: the day-of-month of "day 0" of the
    following month, which is the last day of the month asked about.

    Months are numbered 1 to 12 here, as the month column shows them; the
    source's `getDaysInMonth` takes the zero-based month (`month - 1`). */
module Calendar {

  const MONTHS_IN_YEAR := 12

  /** The Gregorian leap-year rule. Dafny's `%` never yields a negative
      remainder, so the rule is also right for years before 1. */
  predicate IsLeapYear(year: int) {
    (year % 4 == 0 && year % 100 != 0) || year % 400 == 0
  }

  function DaysInMonth(year: int, month: int): (n: int)
    requires 1 <= month <= MONTHS_IN_YEAR
    ensures 28 <= n <= 31
    ensures month == 2 ==> (n == 29 <==> IsLeapYear(year))
    ensures n == 30 <==> month in {4, 6, 9, 11}
    ensures n == 31 <==> month in {1, 3, 5, 7, 8, 10, 12}
  {
    if month == 2 then
      if IsLeapYear(year) then 29 else 28
    else if month == 4 || month == 6 || month == 9 || month == 11 then
      30
    else
      31
  }

  /** `getDaysInMonth(year, monthIndex)`: `monthIndex` is zero-based and,
      as in `new Date(year, monthIndex + 1, 0)`, a value outside 0..11 moves
      into a neighbouring year (month 12 is January of the next year, month -1
      December of the previous one). */
  function GetDaysInMonth(year: int, monthIndex: int): (n: int)
    ensures 28 <= n <= 31
    ensures 0 <= monthIndex < MONTHS_IN_YEAR ==> n == DaysInMonth(year, monthIndex + 1)
  {
    DaysInMonth(year + monthIndex / MONTHS_IN_YEAR, monthIndex % MONTHS_IN_YEAR + 1)
  }

  // An independent count of days, to check `DaysInMonth` against: the
  // number of the day `day` of `month` of `year`, counting 1 January of
  // year 1 as day 1, written with the usual closed formula for the days
  // before a year and a table of days before each month.

  function YearLength(year: int): int {
    if IsLeapYear(year) then 366 else 365
  }

  function DaysBeforeYear(year: int): int {
    var past := year - 1;
    365 * past + past / 4 - past / 100 + past / 400
  }

  function DaysBeforeMonth(year: int, month: int): int
    requires 1 <= month <= MONTHS_IN_YEAR
  {
    var common :=
      match month
      case 1 => 0 case 2 => 31 case 3 => 59 case 4 => 90
      case 5 => 120 case 6 => 151 case 7 => 181 case 8 => 212
      case 9 => 243 case 10 => 273 case 11 => 304 case _ => 334;
    if month > 2 && IsLeapYear(year) then common + 1 else common
  }

  function DayNumber(year: int, month: int, day: int): int
    requires 1 <= month <= MONTHS_IN_YEAR
  {
    DaysBeforeYear(year) + DaysBeforeMonth(year, month) + day
  }

  /** Floor division steps up by one exactly at the multiples of `k`. */
  lemma DivStep(n: int, k: int)
    requires 0 < k
    ensures (n + 1) / k == n / k + (if (n + 1) % k == 0 then 1 else 0)
  {
    var q, r := n / k, n % k;
    assert n == k * q + r && 0 <= r < k;
    if r == k - 1 {
      DivUnique(n + 1, k, q + 1, 0);
    } else {
      DivUnique(n + 1, k, q, r + 1);
    }
  }

  lemma DivUnique(a: int, k: int, q: int, r: int)
    requires 0 < k && 0 <= r < k && a == k * q + r
    ensures a / k == q && a % k == r
  {
    var q', r' := a / k, a % k;
    assert a == k * q' + r' && 0 <= r' < k;
    if q' < q {
      MulAtLeast(k, q - q');
    } else if q' > q {
      MulAtLeast(k, q' - q);
    }
  }

  lemma {:induction false} MulAtLeast(k: int, d: int)
    requires 0 < k && 1 <= d
    ensures k * d >= k
    decreases d
  {
    if d > 1 {
      MulAtLeast(k, d - 1);
      assert k * d == k * (d - 1) + k;
    }
  }

  /** A zero-based month index twelve further on is the same month of the
      next year. */
  lemma GetDaysInMonthNextYear(year: int, monthIndex: int)
    ensures GetDaysInMonth(year, monthIndex + MONTHS_IN_YEAR) == GetDaysInMonth(year + 1, monthIndex)
  {
    var q, r := monthIndex / MONTHS_IN_YEAR, monthIndex % MONTHS_IN_YEAR;
    DivUnique(monthIndex + MONTHS_IN_YEAR, MONTHS_IN_YEAR, q + 1, r);
  }

  /** The closed formula counts one year's days as the leap-year rule says. */
  lemma YearLengthStep(year: int)
    ensures DaysBeforeYear(year + 1) - DaysBeforeYear(year) == YearLength(year)
  {
    var past := year - 1;
    var step4 := StepAt(year, 4);
    var step100 := StepAt(year, 100);
    var step400 := StepAt(year, 400);
    MultipleChain(year);
    assert DaysBeforeYear(year + 1) == 365 * year + year / 4 - year / 100 + year / 400;
    assert DaysBeforeYear(year) == 365 * past + past / 4 - past / 100 + past / 400;
  }

  /** How much `n / k` grows from `n - 1` to `n`. */
  lemma StepAt(n: int, k: int) returns (step: int)
    requires 0 < k
    ensures step == n / k - (n - 1) / k
    ensures step == if n % k == 0 then 1 else 0
  {
    DivStep(n - 1, k);
    step := n / k - (n - 1) / k;
  }

  /** Multiples of 400 are multiples of 100, and those are multiples of 4. */
  lemma MultipleChain(n: int)
    ensures n % 400 == 0 ==> n % 100 == 0
    ensures n % 100 == 0 ==> n % 4 == 0
  {
    if n % 400 == 0 {
      DivUnique(n, 100, 4 * (n / 400), 0);
    }
    if n % 100 == 0 {
      DivUnique(n, 4, 25 * (n / 100), 0);
    }
  }

  /** What the source's `Date` trick relies on: the last day of a month
      (`DaysInMonth` of it) is the day before the first of the next month. */
  lemma LastDayIsEveOfNextMonth(year: int, month: int)
    requires 1 <= month <= MONTHS_IN_YEAR
    ensures month < MONTHS_IN_YEAR ==>
      DayNumber(year, month + 1, 1) - 1 == DayNumber(year, month, DaysInMonth(year, month))
    ensures month == MONTHS_IN_YEAR ==>
      DayNumber(year + 1, 1, 1) - 1 == DayNumber(year, month, DaysInMonth(year, month))
  {
    if month == MONTHS_IN_YEAR {
      YearLengthStep(year);
    }
  }
}
