/**
 * Proleptic Gregorian calendar arithmetic on day numbers, as Python's
 * datetime module does it: a date's ordinal is the number of days since
 * 0000-12-31, so 0001-01-01 is day 1 and 9999-12-31 (the largest date
 * Python represents) is day 3652059.  Adding a timedelta of k days moves
 * the ordinal by k; a result outside 1..MaxOrdinal raises OverflowError.
 */
module Calendar {
  datatype Date = Date(year: int, month: int, day: int)

  const MinYear := 1
  const MaxYear := 9999
  /** The ordinal of 9999-12-31. */
  const MaxOrdinal := 3652059

  predicate IsLeap(y: int) {
    y % 4 == 0 && (y % 100 != 0 || y % 400 == 0)
  }

  function DaysInYear(y: int): int {
    if IsLeap(y) then 366 else 365
  }

  function DaysInMonth(y: int, m: int): (n: int)
    requires 1 <= m <= 12
    ensures 28 <= n <= 31
    ensures m == 2 ==> (n == 29 <==> IsLeap(y))
  {
    if m == 2 then (if IsLeap(y) then 29 else 28)
    else if m == 4 || m == 6 || m == 9 || m == 11 then 30
    else 31
  }

  /** A date Python's datetime accepts: year 1..9999, month 1..12, day within the month. */
  predicate ValidDate(d: Date) {
    && MinYear <= d.year <= MaxYear
    && 1 <= d.month <= 12
    && 1 <= d.day <= DaysInMonth(d.year, d.month)
  }

  /** Days in the years 1 .. y-1. */
  function DaysBeforeYear(y: int): int {
    var p := y - 1;
    p * 365 + p / 4 - p / 100 + p / 400
  }

  /** Days in the months 1 .. m-1 of year y. */
  function DaysBeforeMonth(y: int, m: int): int
    requires 1 <= m <= 12
  {
    var table := [0, 31, 59, 90, 120, 151, 181, 212, 243, 273, 304, 334];
    table[m - 1] + (if m > 2 && IsLeap(y) then 1 else 0)
  }

  /** The closed form of DaysBeforeYear adds exactly one year's length per year. */
  lemma DaysBeforeYearStep(y: int)
    requires y >= MinYear
    ensures DaysBeforeYear(y + 1) == DaysBeforeYear(y) + DaysInYear(y)
  {
    StepDiv4(y - 1);
    StepDiv100(y - 1);
    StepDiv400(y - 1);
    DivisorChain(y);
  }

  lemma StepDiv4(p: int)
    requires p >= 0
    ensures (p + 1) / 4 == p / 4 + (if (p + 1) % 4 == 0 then 1 else 0)
  {
  }

  lemma StepDiv100(p: int)
    requires p >= 0
    ensures (p + 1) / 100 == p / 100 + (if (p + 1) % 100 == 0 then 1 else 0)
  {
  }

  lemma StepDiv400(p: int)
    requires p >= 0
    ensures (p + 1) / 400 == p / 400 + (if (p + 1) % 400 == 0 then 1 else 0)
  {
  }

  lemma DivisorChain(y: int)
    ensures y % 400 == 0 ==> y % 100 == 0
    ensures y % 100 == 0 ==> y % 4 == 0
  {
    if y % 400 == 0 {
      MultipleMod(y / 400 * 4, 100);
    }
    if y % 100 == 0 {
      MultipleMod(y / 100 * 25, 4);
    }
  }

  lemma MultipleMod(k: int, q: int)
    requires q == 4 || q == 100
    ensures (k * q) % q == 0
  {
    if q == 4 {
      assert k * q == 4 * k;
    } else {
      assert k * q == 100 * k;
    }
  }

  lemma {:induction false} DaysBeforeYearMonotone(a: int, b: int)
    requires MinYear <= a < b
    ensures DaysBeforeYear(a) + DaysInYear(a) <= DaysBeforeYear(b)
    decreases b - a
  {
    DaysBeforeYearStep(a);
    if a + 1 < b {
      DaysBeforeYearMonotone(a + 1, b);
    }
  }

  /** The month table adds exactly one month's length per month, and the year's length at the end. */
  lemma DaysBeforeMonthStep(y: int, m: int)
    requires 1 <= m <= 12
    ensures m < 12 ==> DaysBeforeMonth(y, m + 1) == DaysBeforeMonth(y, m) + DaysInMonth(y, m)
    ensures m == 12 ==> DaysBeforeMonth(y, m) + DaysInMonth(y, m) == DaysInYear(y)
  {
  }

  /** Python's ymd2ord: the day number of a valid date. */
  function ToOrdinal(d: Date): (n: int)
    requires ValidDate(d)
    ensures 1 <= n <= MaxOrdinal
    ensures DaysBeforeYear(d.year) < n <= DaysBeforeYear(d.year) + DaysInYear(d.year)
  {
    DaysBeforeMonthStep(d.year, d.month);
    DaysBeforeYearStep(d.year);
    DaysBeforeYearMonotone(d.year, MaxYear + 1);
    DaysBeforeYear(d.year) + DaysBeforeMonth(d.year, d.month) + d.day
  }

  /** The year holding day n, searched from year y upward. */
  function YearOf(n: int, y: int): (r: int)
    requires MinYear <= y <= MaxYear
    requires DaysBeforeYear(y) < n <= MaxOrdinal
    ensures y <= r <= MaxYear
    ensures DaysBeforeYear(r) < n <= DaysBeforeYear(r) + DaysInYear(r)
    decreases MaxYear - y
  {
    DaysBeforeYearStep(y);
    if n <= DaysBeforeYear(y) + DaysInYear(y) then y
    else YearOf(n, y + 1)
  }

  /** The month of year y holding day-of-year doy, searched from month m upward. */
  function MonthOf(y: int, doy: int, m: int): (r: int)
    requires 1 <= m <= 12
    requires DaysBeforeMonth(y, m) < doy <= DaysInYear(y)
    ensures m <= r <= 12
    ensures DaysBeforeMonth(y, r) < doy <= DaysBeforeMonth(y, r) + DaysInMonth(y, r)
    decreases 12 - m
  {
    DaysBeforeMonthStep(y, m);
    if m == 12 || doy <= DaysBeforeMonth(y, m) + DaysInMonth(y, m) then m
    else MonthOf(y, doy, m + 1)
  }

  /** The date with day number n: the inverse of ToOrdinal on 1..MaxOrdinal. */
  function FromOrdinal(n: int): (d: Date)
    requires 1 <= n <= MaxOrdinal
    ensures ValidDate(d) && ToOrdinal(d) == n
  {
    var y := YearOf(n, MinYear);
    var doy := n - DaysBeforeYear(y);
    var m := MonthOf(y, doy, 1);
    Date(y, m, doy - DaysBeforeMonth(y, m))
  }

  /** date + timedelta(days=k), on day numbers. */
  function AddDays(n: int, k: int): int {
    n + k
  }

  /** Only one year's span of day numbers holds a given day. */
  lemma YearSpanUnique(n: int, a: int, b: int)
    requires MinYear <= a && MinYear <= b
    requires DaysBeforeYear(a) < n <= DaysBeforeYear(a) + DaysInYear(a)
    requires DaysBeforeYear(b) < n <= DaysBeforeYear(b) + DaysInYear(b)
    ensures a == b
  {
    if a < b {
      DaysBeforeYearMonotone(a, b);
    } else if b < a {
      DaysBeforeYearMonotone(b, a);
    }
  }

  /** Only one month's span of days in a year holds a given day of the year. */
  lemma MonthSpanUnique(y: int, doy: int, a: int, b: int)
    requires 1 <= a <= 12 && 1 <= b <= 12
    requires DaysBeforeMonth(y, a) < doy <= DaysBeforeMonth(y, a) + DaysInMonth(y, a)
    requires DaysBeforeMonth(y, b) < doy <= DaysBeforeMonth(y, b) + DaysInMonth(y, b)
    ensures a == b
  {
  }

  /** Day numbers and valid dates are in one-to-one correspondence. */
  lemma OrdinalRoundTrip(d: Date)
    requires ValidDate(d)
    ensures FromOrdinal(ToOrdinal(d)) == d
  {
    var n := ToOrdinal(d);
    var e := FromOrdinal(n);
    YearSpanUnique(n, d.year, e.year);
    DaysBeforeMonthStep(d.year, d.month);
    MonthSpanUnique(d.year, n - DaysBeforeYear(d.year), d.month, e.month);
  }

  /** Within a month, the next day number is the next day of the month. */
  lemma NextDayInMonth(d: Date)
    requires ValidDate(d) && d.day < DaysInMonth(d.year, d.month)
    ensures FromOrdinal(ToOrdinal(d) + 1) == Date(d.year, d.month, d.day + 1)
  {
    var e := Date(d.year, d.month, d.day + 1);
    assert ToOrdinal(e) == ToOrdinal(d) + 1;
    OrdinalRoundTrip(e);
  }

  /** After the last day of a month other than December comes the first of the next month. */
  lemma NextDayNextMonth(d: Date)
    requires ValidDate(d) && d.day == DaysInMonth(d.year, d.month) && d.month < 12
    ensures FromOrdinal(ToOrdinal(d) + 1) == Date(d.year, d.month + 1, 1)
  {
    var e := Date(d.year, d.month + 1, 1);
    DaysBeforeMonthStep(d.year, d.month);
    assert ValidDate(e);
    assert ToOrdinal(e) == DaysBeforeYear(d.year) + DaysBeforeMonth(d.year, d.month + 1) + 1;
    assert ToOrdinal(e) == ToOrdinal(d) + 1;
    OrdinalRoundTrip(e);
  }

  /** After December 31 comes January 1 of the next year. */
  lemma NextDayNewYear(y: int)
    requires MinYear <= y < MaxYear
    ensures FromOrdinal(ToOrdinal(Date(y, 12, 31)) + 1) == Date(y + 1, 1, 1)
  {
    YearEndOrdinal(y);
    OrdinalRoundTrip(Date(y + 1, 1, 1));
  }

  lemma YearEndOrdinal(y: int)
    requires MinYear <= y < MaxYear
    ensures ToOrdinal(Date(y, 12, 31)) + 1 == ToOrdinal(Date(y + 1, 1, 1))
  {
    DaysBeforeYearStep(y);
    assert DaysBeforeMonth(y, 12) + 31 == DaysInYear(y);
  }
}
