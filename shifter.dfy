/**
 * shift_date(date_str, shift_days, "%Y-%m-%d"): parse, add shift_days
 * calendar days, render.  The three ways the Python body can end are kept
 * apart: a shifted string, a ValueError from strptime (the input comes back
 * unchanged, with a warning), and an OverflowError from the date addition,
 * which shift_date does not catch.
 */
module Shifter {
  import opened Wrappers
  import opened Shapes
  import opened Calendar
  import opened IsoDate

  datatype ShiftResult =
    | Shifted(text: string)   // strptime, + timedelta and strftime all succeeded
    | Unparsed                // strptime raised ValueError
    | OutOfRange              // the sum left years 1..9999: OverflowError

  function ShiftDate(s: string, k: int): (r: ShiftResult)
    ensures r == Unparsed <==> Parse(s).None?
    ensures r.Shifted? ==> IsoShape(r.text)
  {
    match Parse(s)
    case None => Unparsed
    case Some(d) =>
      var n := AddDays(ToOrdinal(d), k);
      if 1 <= n <= MaxOrdinal then Shifted(Render(FromOrdinal(n))) else OutOfRange
  }

  /** What a Python caller of shift_date sees: a returned string, or an OverflowError. */
  datatype PyOutcome = Returned(value: string) | RaisesOverflow

  function ShiftDatePy(s: string, k: int): PyOutcome {
    match ShiftDate(s, k)
    case Shifted(t) => Returned(t)
    case Unparsed => Returned(s)
    case OutOfRange => RaisesOverflow
  }

  /** A parsable date shifts to t exactly when t is the rendering of the date k days later. */
  lemma ShiftIsExact(s: string, t: string, k: int)
    requires Parse(s).Some?
    ensures ShiftDate(s, k) == Shifted(t) <==>
      Parse(t).Some? && ToOrdinal(Parse(t).value) == AddDays(ToOrdinal(Parse(s).value), k)
  {
    if ShiftDate(s, k) == Shifted(t) {
      ShiftedParses(s, t, k);
    }
    if Parse(t).Some? && ToOrdinal(Parse(t).value) == AddDays(ToOrdinal(Parse(s).value), k) {
      LaterDateIsShift(s, t, k);
    }
  }

  lemma ShiftOfParsed(s: string, k: int)
    requires Parse(s).Some?
    ensures var n := AddDays(ToOrdinal(Parse(s).value), k);
      ShiftDate(s, k) == if 1 <= n <= MaxOrdinal then Shifted(Render(FromOrdinal(n))) else OutOfRange
  {
  }

  lemma ShiftedParses(s: string, t: string, k: int)
    requires Parse(s).Some? && ShiftDate(s, k) == Shifted(t)
    ensures Parse(t).Some? && ToOrdinal(Parse(t).value) == AddDays(ToOrdinal(Parse(s).value), k)
  {
    var n := AddDays(ToOrdinal(Parse(s).value), k);
    ShiftOfParsed(s, k);
    assert 1 <= n <= MaxOrdinal;
    var e := FromOrdinal(n);
    assert t == Render(e);
    ParseRender(e);
    assert Parse(t) == Some(e);
  }

  lemma LaterDateIsShift(s: string, t: string, k: int)
    requires Parse(s).Some? && Parse(t).Some?
    requires ToOrdinal(Parse(t).value) == AddDays(ToOrdinal(Parse(s).value), k)
    ensures ShiftDate(s, k) == Shifted(t)
  {
    var n := AddDays(ToOrdinal(Parse(s).value), k);
    RenderOfOrdinal(t);
    assert Render(FromOrdinal(n)) == t;
    ShiftOfParsed(s, k);
  }

  /** A parsable string is the rendering of the date with its own day number. */
  lemma RenderOfOrdinal(t: string)
    requires Parse(t).Some?
    ensures Render(FromOrdinal(ToOrdinal(Parse(t).value))) == t
  {
    OrdinalRoundTrip(Parse(t).value);
    RenderParse(t);
  }

  /** The shift overflows exactly when no date of years 1..9999 lies k days after the parsed one. */
  lemma OverflowIffNoDate(s: string, k: int)
    requires Parse(s).Some?
    ensures ShiftDate(s, k) == OutOfRange <==>
      forall e :: ValidDate(e) ==> ToOrdinal(e) != AddDays(ToOrdinal(Parse(s).value), k)
  {
    var n := AddDays(ToOrdinal(Parse(s).value), k);
    if 1 <= n <= MaxOrdinal {
      assert ValidDate(FromOrdinal(n)) && ToOrdinal(FromOrdinal(n)) == n;
    }
  }

  /** A zero shift of a parsable date gives back the identical string. */
  lemma ShiftZero(s: string)
    requires Parse(s).Some?
    ensures ShiftDate(s, 0) == Shifted(s)
  {
    ShiftOfParsed(s, 0);
    assert AddDays(ToOrdinal(Parse(s).value), 0) == ToOrdinal(Parse(s).value);
    RenderOfOrdinal(s);
  }

  /** shift_date(s, 0) returns s itself, whether or not s parses. */
  lemma ShiftZeroReturnsInput(s: string)
    ensures ShiftDatePy(s, 0) == Returned(s)
  {
    if Parse(s).Some? {
      ShiftZero(s);
    }
  }

  /** Shifting back by -k undoes a shift by k. */
  lemma ShiftInverse(s: string, t: string, k: int)
    requires ShiftDate(s, k) == Shifted(t)
    ensures ShiftDate(t, -k) == Shifted(s)
  {
    ShiftedParses(s, t, k);
    assert ToOrdinal(Parse(s).value) == AddDays(ToOrdinal(Parse(t).value), -k);
    LaterDateIsShift(t, s, -k);
  }

  /** strptime fails exactly on the strings that render no valid date, and then the input comes back. */
  lemma Passthrough(s: string, k: int)
    ensures ShiftDate(s, k) == Unparsed <==> forall d :: ValidDate(d) ==> Render(d) != s
    ensures ShiftDate(s, k) == Unparsed ==> ShiftDatePy(s, k) == Returned(s)
  {
    if ShiftDate(s, k) != Unparsed {
      RenderParse(s);
    } else {
      forall d | ValidDate(d)
        ensures Render(d) != s
      {
        ParseRender(d);
      }
    }
  }

  /** Candidates of the DD/MM/YYYY and DD/MM/YY shapes never parse under "%Y-%m-%d". */
  lemma DayFirstShapesUnparsed(s: string, k: int)
    requires DmyLongShape(s) || DmyShortShape(s)
    ensures ShiftDatePy(s, k) == Returned(s)
  {
  }

  /** Month 13 and day 40 are rejected; this is the scanner's purely lexical candidate. */
  lemma MonthThirteenUnparsed(k: int)
    ensures ShiftDatePy("2023-13-40", k) == Returned("2023-13-40")
  {
  }

  /** Month 00 is rejected. */
  lemma MonthZeroUnparsed(k: int)
    ensures ShiftDatePy("2023-00-10", k) == Returned("2023-00-10")
  {
  }

  /** February 29 exists only in leap years, and 2023 is not one. */
  lemma CommonYearLeapDayUnparsed(k: int)
    ensures ShiftDatePy("2023-02-29", k) == Returned("2023-02-29")
  {
    assert Fields("2023-02-29") == Date(2023, 2, 29);
    assert !IsLeap(2023);
  }

  /** A century year is a leap year only when divisible by 400, so 1900-02-29 does not exist. */
  lemma CenturyLeapDayUnparsed(k: int)
    ensures ShiftDatePy("1900-02-29", k) == Returned("1900-02-29")
  {
    assert Fields("1900-02-29") == Date(1900, 2, 29);
    assert !IsLeap(1900);
  }

  /** April has 30 days. */
  lemma AprilThirtyFirstUnparsed(k: int)
    ensures ShiftDatePy("2023-04-31", k) == Returned("2023-04-31")
  {
  }

  /** There is no year 0. */
  lemma YearZeroUnparsed(k: int)
    ensures ShiftDatePy("0000-01-01", k) == Returned("0000-01-01")
  {
  }

  /** Shifts between two parsed dates whose day numbers differ by k. */
  lemma ShiftBetween(s: string, t: string, d: Date, e: Date, k: int)
    requires Parse(s) == Some(d) && Parse(t) == Some(e)
    requires ToOrdinal(e) == AddDays(ToOrdinal(d), k)
    ensures ShiftDate(s, k) == Shifted(t)
  {
    LaterDateIsShift(s, t, k);
  }

  lemma ShiftWithinMonth()
    ensures ShiftDate("2023-01-15", 10) == Shifted("2023-01-25")
  {
    ShiftBetween("2023-01-15", "2023-01-25", Date(2023, 1, 15), Date(2023, 1, 25), 10);
  }

  lemma ShiftToMonthEnd()
    ensures ShiftDate("2023-01-20", 10) == Shifted("2023-01-30")
  {
    ShiftBetween("2023-01-20", "2023-01-30", Date(2023, 1, 20), Date(2023, 1, 30), 10);
  }

  lemma ShiftAcrossMonthEnd()
    ensures ShiftDate("2023-01-25", 10) == Shifted("2023-02-04")
  {
    ShiftBetween("2023-01-25", "2023-02-04", Date(2023, 1, 25), Date(2023, 2, 4), 10);
  }

  lemma ShiftAcrossYearEnd()
    ensures ShiftDate("2023-12-31", 1) == Shifted("2024-01-01")
  {
    ShiftBetween("2023-12-31", "2024-01-01", Date(2023, 12, 31), Date(2024, 1, 1), 1);
  }

  lemma ShiftOntoLeapDay()
    ensures ShiftDate("2024-02-28", 1) == Shifted("2024-02-29")
  {
    ShiftBetween("2024-02-28", "2024-02-29", Date(2024, 2, 28), Date(2024, 2, 29), 1);
  }

  lemma ShiftPastCommonFebruary()
    ensures ShiftDate("2023-02-28", 1) == Shifted("2023-03-01")
  {
    ShiftBetween("2023-02-28", "2023-03-01", Date(2023, 2, 28), Date(2023, 3, 1), 1);
  }

  lemma ShiftBackOverLeapDay()
    ensures ShiftDate("2024-03-01", -2) == Shifted("2024-02-28")
  {
    ShiftBetween("2024-03-01", "2024-02-28", Date(2024, 3, 1), Date(2024, 2, 28), -2);
  }

  /** A day number outside 1..MaxOrdinal makes the addition raise OverflowError. */
  lemma OverflowOutside(s: string, d: Date, k: int)
    requires Parse(s) == Some(d)
    requires !(1 <= AddDays(ToOrdinal(d), k) <= MaxOrdinal)
    ensures ShiftDatePy(s, k) == RaisesOverflow
  {
  }

  /** Past 9999-12-31 the addition raises OverflowError. */
  lemma OverflowPastLastDate()
    ensures ShiftDatePy("9999-12-31", 1) == RaisesOverflow
  {
    var d := Date(9999, 12, 31);
    assert Fields("9999-12-31") == d;
    assert DaysBeforeYear(9999) == 3651694;
    OverflowOutside("9999-12-31", d, 1);
  }

  /** Before 0001-01-01 the addition raises OverflowError. */
  lemma OverflowBeforeFirstDate()
    ensures ShiftDatePy("0001-01-01", -1) == RaisesOverflow
  {
    var d := Date(1, 1, 1);
    assert Fields("0001-01-01") == d;
    assert DaysBeforeYear(1) == 0;
    OverflowOutside("0001-01-01", d, -1);
  }
}
