/**
 * Parsing and rendering of the default date format "%Y-%m-%d": the
 * ISO 8601 extended calendar-date form YYYY-MM-DD.
 *
 * Parsing is restricted to the ten-character scanner shape DDDD-DD-DD,
 * where strptime succeeds exactly when the fields form a valid date of
 * years 1..9999.  Rendering writes the year with four zero-padded digits.
 */
module IsoDate {
  import opened Wrappers
  import opened Shapes
  import opened Calendar

  function DigitValue(c: char): (v: int)
    requires IsDigit(c)
    ensures 0 <= v <= 9
  {
    c as int - '0' as int
  }

  function DigitChar(v: int): (c: char)
    requires 0 <= v <= 9
    ensures IsDigit(c) && DigitValue(c) == v
  {
    ('0' as int + v) as char
  }

  /** The fields of a DDDD-DD-DD string, read as decimal numbers (not yet checked as a date). */
  function Fields(s: string): (d: Date)
    requires IsoShape(s)
    ensures 0 <= d.year <= 9999 && 0 <= d.month <= 99 && 0 <= d.day <= 99
  {
    Date(
      1000 * DigitValue(s[0]) + 100 * DigitValue(s[1]) + 10 * DigitValue(s[2]) + DigitValue(s[3]),
      10 * DigitValue(s[5]) + DigitValue(s[6]),
      10 * DigitValue(s[8]) + DigitValue(s[9]))
  }

  /** strptime(s, "%Y-%m-%d") on the scanner's shapes: a date, or None where it raises ValueError. */
  function Parse(s: string): (r: Option<Date>)
    ensures r.Some? ==> ValidDate(r.value)
  {
    if IsoShape(s) && ValidDate(Fields(s)) then Some(Fields(s)) else None
  }

  /** strftime(d, "%Y-%m-%d") with a four-digit, zero-padded year. */
  function Render(d: Date): (s: string)
    requires ValidDate(d)
    ensures IsoShape(s)
  {
    var y, m, dd := d.year, d.month, d.day;
    [DigitChar(y / 1000), DigitChar(y / 100 % 10), DigitChar(y / 10 % 10), DigitChar(y % 10), '-',
     DigitChar(m / 10), DigitChar(m % 10), '-',
     DigitChar(dd / 10), DigitChar(dd % 10)]
  }

  /** Reading back a rendered date gives the date. */
  lemma ParseRender(d: Date)
    requires ValidDate(d)
    ensures Parse(Render(d)) == Some(d)
  {
    var s := Render(d);
    SplitDigits4(d.year);
    SplitDigits2(d.month);
    SplitDigits2(d.day);
    assert Fields(s) == d;
  }

  /** Rendering a parsed date gives back the very same string. */
  lemma RenderParse(s: string)
    requires Parse(s).Some?
    ensures Render(Parse(s).value) == s
  {
    var d := Fields(s);
    assert Parse(s).value == d;
    JoinDigits4(DigitValue(s[0]), DigitValue(s[1]), DigitValue(s[2]), DigitValue(s[3]));
    JoinDigits2(DigitValue(s[5]), DigitValue(s[6]));
    JoinDigits2(DigitValue(s[8]), DigitValue(s[9]));
    var r := Render(d);
    assert r == [DigitChar(DigitValue(s[0])), DigitChar(DigitValue(s[1])), DigitChar(DigitValue(s[2])),
      DigitChar(DigitValue(s[3])), '-', DigitChar(DigitValue(s[5])), DigitChar(DigitValue(s[6])), '-',
      DigitChar(DigitValue(s[8])), DigitChar(DigitValue(s[9]))];
    assert r == s;
  }

  lemma SplitDigits4(y: int)
    requires 0 <= y <= 9999
    ensures 1000 * (y / 1000) + 100 * (y / 100 % 10) + 10 * (y / 10 % 10) + y % 10 == y
  {
    var q1, r1 := y / 10, y % 10;
    var q2, r2 := q1 / 10, q1 % 10;
    var q3, r3 := q2 / 10, q2 % 10;
    assert y == 1000 * q3 + 100 * r3 + 10 * r2 + r1;
    assert y / 100 == q2;
    assert y / 1000 == q3;
  }

  lemma SplitDigits2(m: int)
    requires 0 <= m <= 99
    ensures 10 * (m / 10) + m % 10 == m
  {
  }

  lemma JoinDigits4(a: int, b: int, c: int, e: int)
    requires 0 <= a <= 9 && 0 <= b <= 9 && 0 <= c <= 9 && 0 <= e <= 9
    ensures var y := 1000 * a + 100 * b + 10 * c + e;
      y / 1000 == a && y / 100 % 10 == b && y / 10 % 10 == c && y % 10 == e
  {
    var y := 1000 * a + 100 * b + 10 * c + e;
    assert y / 100 == 10 * a + b;
    JoinDigits2(a, b);
    assert y / 10 == 10 * (10 * a + b) + c;
    JoinDigits2(10 * a + b, c);
  }

  lemma JoinDigits2(a: int, b: int)
    requires 0 <= a && 0 <= b <= 9
    ensures (10 * a + b) / 10 == a && (10 * a + b) % 10 == b
  {
  }

  /** Parse and Render are inverse bijections between valid dates and the strings that parse. */
  lemma ParseIffRender(s: string, d: Date)
    ensures Parse(s) == Some(d) <==> ValidDate(d) && Render(d) == s
  {
    if Parse(s) == Some(d) {
      RenderParse(s);
    }
    if ValidDate(d) && Render(d) == s {
      ParseRender(d);
    }
  }

  /** Distinct valid dates render to distinct strings. */
  lemma RenderInjective(d: Date, e: Date)
    requires ValidDate(d) && ValidDate(e)
    ensures Render(d) == Render(e) <==> d == e
  {
    ParseRender(d);
    ParseRender(e);
  }
}
