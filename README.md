# dso-date-shifter in Dafny

This project models the date-rewriting core of the `dso-date-shifter` tool (`main.py`).
The tool takes the text of a file and moves every date it contains by a fixed number of days.
The model covers the three pieces of `process_file` that do this work:

- **Scanner** (`Scanner`). The tool calls `re.findall` with the pattern
  `\d{4}-\d{2}-\d{2}|\d{2}[/-]\d{2}[/-]\d{4}|\d{2}[/-]\d{2}[/-]\d{2}`.
  The model is a left-to-right scan. At each position it tries the three alternatives in pattern order. On a match it records the match and resumes right after it; otherwise it moves on one character.
  The scan is proved equal to an independent description of the match list (`IsFindAll`): every match is the leftmost first-alternative match after the previous one, and no match lies in a gap.
- **Date shifter** (`Calendar`, `IsoDate`, `Shifter`). This is `shift_date` with the default format `%Y-%m-%d`, which is the ISO 8601 extended calendar-date form YYYY-MM-DD.
  - Dates become Python-style day numbers in the proleptic Gregorian calendar: day 1 is 0001-01-01 and day 3652059 is 9999-12-31.
  - A shift of k days adds k to the day number.
  - `ShiftDate` keeps the three outcomes of the Python body apart: a shifted string; `Unparsed`, where `strptime` raised `ValueError` and the input comes back unchanged; and `OutOfRange`, where the sum left years 1..9999 and `OverflowError` escapes `shift_date`.
  - `ShiftDatePy` is what a Python caller sees.
- **Transformer** (`Transformer`, `StrReplace`). This is the loop `shifted_content = shifted_content.replace(date_str, shifted_date)` over the candidates in scan order.
  - `StrReplace.Replace` is Python's `str.replace` without a count. It replaces non-overlapping occurrences left to right and never searches inserted text again. For a non-empty needle it is proved equal to the reference `split`/`join` description (for an empty one, Python's `split` raises `ValueError`).
  - `Transformer.ShiftAllDates` is the loop itself. It is proved equal to the fold `Rewrite`.
  - The `OverflowError` leaves the loop and is caught by the `except Exception` of `process_file`. In that case the file is not written (`Skipped`).
  - Later candidates are looked up in the text that earlier passes already rewrote. A date produced by one shift is therefore shifted again if it is also a later candidate. The model keeps this behaviour; `TransformTwoDates` states it for any text holding two YYYY-MM-DD candidates, no other digits and a non-empty separator between the two dates; `CascadeExample` pins one case.

An out-of-range shift is not a passthrough. `shift_date` catches only `ValueError`, so the `OverflowError` from the date addition reaches the handler of `process_file`, which logs it and writes nothing for that file.

## Model

| member | source | states |
|---|---|---|
| Calendar.IsLeap | main.py:71 | computes the Gregorian leap-year rule: divisible by 4, and not by 100 unless by 400 |
| Calendar.ValidDate | main.py:71 | computes whether a date is one datetime accepts: year 1..9999, month 1..12, day within the month |
| Calendar.DaysBeforeYear | main.py:72 | computes the number of days in years 1..y-1 in closed form, as Python's `_days_before_year` |
| Calendar.DaysBeforeMonth | main.py:72 | computes the number of days in the months before m of year y, as Python's `_days_before_month` |
| Calendar.AddDays | main.py:72 | computes `date + timedelta(days=k)` on day numbers: the day number moves by k |
| Calendar.DaysInMonth | main.py:71 | every month has 28 to 31 days, and February has 29 exactly in a leap year (divisible by 4, and not by 100 unless by 400) |
| Calendar.DaysBeforeYearStep | main.py:72 | the closed-form day count before year y grows by exactly the length of year y |
| Calendar.ToOrdinal | main.py:72 | a valid date's day number lies in 1..3652059 and inside its own year's span |
| Calendar.FromOrdinal | main.py:72 | every day number in 1..3652059 is the day number of a valid date |
| Calendar.OrdinalRoundTrip | main.py:72 | day numbers and valid dates are in one-to-one correspondence |
| Calendar.NextDayInMonth | main.py:72 | one day after a day that is not a month's last is the next day of that month |
| Calendar.NextDayNextMonth | main.py:72 | one day after the last day of January..November is the 1st of the next month |
| Calendar.NextDayNewYear | main.py:72 | one day after December 31 is January 1 of the next year |
| IsoDate.Parse | main.py:71 | `strptime` with `%Y-%m-%d` yields only valid dates of years 1..9999 |
| IsoDate.Render | main.py:73 | `strftime` with `%Y-%m-%d` yields a DDDD-DD-DD string |
| IsoDate.ParseRender | main.py:71-73 | parsing the rendering of a valid date gives the date back |
| IsoDate.RenderParse | main.py:71-73 | rendering a parsed date gives back the very same string |
| IsoDate.ParseIffRender | main.py:71-73 | a string parses to d exactly when d is valid and renders to that string |
| IsoDate.RenderInjective | main.py:73 | two valid dates render alike exactly when they are equal |
| Shifter.ShiftDate | main.py:58-76 | `shift_date` with `%Y-%m-%d`: it is `Unparsed` exactly when `strptime` fails, and a shifted result is a DDDD-DD-DD string; otherwise it is the rendering of the date k days later, or `OutOfRange` |
| Shifter.ShiftDatePy | main.py:58-76 | computes what a caller of `shift_date` sees: the shifted string, the input itself after a `ValueError`, or a raised `OverflowError` |
| Shifter.ShiftIsExact | main.py:71-73 | a parsable date shifts to t exactly when t parses to the date whose day number is k more |
| Shifter.OverflowIffNoDate | main.py:72 | the addition overflows exactly when no date of years 1..9999 lies k days later |
| Shifter.ShiftZero | main.py:71-73 | a zero shift of a parsable date returns the identical string |
| Shifter.ShiftZeroReturnsInput | main.py:70-76 | with parsing limited to the ten-character DDDD-DD-DD shape, `shift_date(s, 0)` returns s whether or not s parses |
| Shifter.ShiftInverse | main.py:71-73 | shifting by k and then by -k restores the original string |
| Shifter.Passthrough | main.py:70-76 | with parsing limited to the ten-character DDDD-DD-DD shape, parsing fails exactly on strings that are no rendering of a valid date, and then the input is returned unchanged |
| Shifter.DayFirstShapesUnparsed | main.py:74-76 | DD/MM/YYYY and DD/MM/YY candidates never parse as `%Y-%m-%d` and come back unchanged |
| Shifter.MonthThirteenUnparsed | main.py:74-76 | month 13 (with day 40) is returned unchanged |
| Shifter.MonthZeroUnparsed | main.py:74-76 | month 00 is returned unchanged |
| Shifter.CommonYearLeapDayUnparsed | main.py:74-76 | 2023-02-29 is returned unchanged |
| Shifter.CenturyLeapDayUnparsed | main.py:74-76 | 1900-02-29 is returned unchanged |
| Shifter.AprilThirtyFirstUnparsed | main.py:74-76 | 2023-04-31 is returned unchanged |
| Shifter.YearZeroUnparsed | main.py:74-76 | 0000-01-01 is returned unchanged |
| Shifter.ShiftBetween | main.py:71-73 | two parsed dates whose day numbers differ by k are the shift of one another |
| Shifter.ShiftWithinMonth | main.py:71-73 | 2023-01-15 plus 10 days is 2023-01-25 |
| Shifter.ShiftToMonthEnd | main.py:71-73 | 2023-01-20 plus 10 days is 2023-01-30 |
| Shifter.ShiftAcrossMonthEnd | main.py:71-73 | 2023-01-25 plus 10 days is 2023-02-04 |
| Shifter.ShiftAcrossYearEnd | main.py:71-73 | 2023-12-31 plus 1 day is 2024-01-01 |
| Shifter.ShiftOntoLeapDay | main.py:71-73 | 2024-02-28 plus 1 day is 2024-02-29 |
| Shifter.ShiftPastCommonFebruary | main.py:71-73 | 2023-02-28 plus 1 day is 2023-03-01 |
| Shifter.ShiftBackOverLeapDay | main.py:71-73 | 2024-03-01 minus 2 days is 2024-02-28 |
| Shifter.OverflowOutside | main.py:72 | a sum outside 1..3652059 raises `OverflowError` out of `shift_date` |
| Shifter.OverflowPastLastDate | main.py:72 | 9999-12-31 plus 1 day raises `OverflowError` |
| Shifter.OverflowBeforeFirstDate | main.py:72 | 0001-01-01 minus 1 day raises `OverflowError` |
| Scanner.ScanFrom | main.py:104 | computes the `findall` scan from a position: the first alternative that fits is recorded and the scan resumes after it, otherwise it moves on one character |
| Shapes.IsoShape | main.py:103 | holds of a ten-character window matching the first alternative `\d{4}-\d{2}-\d{2}`, ASCII digits only |
| Shapes.DmyLongShape | main.py:103 | holds of a ten-character window matching the second alternative `\d{2}[/-]\d{2}[/-]\d{4}`, ASCII digits only |
| Shapes.DmyShortShape | main.py:103 | holds of an eight-character window matching the third alternative `\d{2}[/-]\d{2}[/-]\d{2}`, ASCII digits only |
| Scanner.ShapeAt | main.py:103 | the alternation picks an alternative that fits, no earlier alternative fits, and None means none fits |
| Scanner.ScanSound | main.py:104 | every reported span is a match inside the text, and the spans come in text order without overlap |
| Scanner.ScanCharacterised | main.py:104 | a span list is the leftmost, first-alternative, non-overlapping match list exactly when it is the scan's result |
| Scanner.FindAll | main.py:103-104 | every string `findall` returns has one of the three shapes |
| Scanner.ScanShift | main.py:104 | scanning a suffix finds the same matches as scanning the whole text from there, moved by the suffix's offset |
| Scanner.FindAllAfterPlainText | main.py:104 | text without digits in front adds no match |
| Scanner.FindAllAfterCandidate | main.py:104 | a YYYY-MM-DD or DD/MM/YYYY candidate at the front, or a DD/MM/YY candidate not followed by a digit, is matched whole and the scan continues after it |
| Scanner.FindAllExampleLine | main.py:103-104 | "start 2023-12-31 mid 31/12/99 end 31-12-2023 tail 2023-13-40 done" yields its four candidates in order |
| Scanner.FindAllPrefersLongYear | main.py:103 | in "01/02/2023" the two-digit-year alternative fits too, yet the whole ten characters are matched |
| Scanner.FindAllIsLexical | main.py:103 | "99-99-99" is a candidate, since fields are not checked |
| StrReplace.Replace | main.py:111 | `s.replace(old, new)`: occurrences replaced left to right without overlap and never searched again; an empty `old` matches before every character and at the end; a non-empty `old` replaced by a `new` of the same length keeps the text's length |
| StrReplace.Split | main.py:111 | the reference `s.split(sep)` for a non-empty `sep`, which always has at least one piece |
| StrReplace.Join | main.py:111 | computes the reference `sep.join(parts)` |
| StrReplace.ReplaceIsSplitJoin | main.py:111 | `s.replace(old, new)` equals `new.join(s.split(old))` for a non-empty `old` |
| StrReplace.SplitJoin | main.py:111 | joining the split pieces with the separator rebuilds the text |
| StrReplace.ReplaceSelf | main.py:111 | replacing a string by itself changes nothing |
| StrReplace.ReplaceAbsent | main.py:111 | a text without the needle comes back unchanged |
| StrReplace.ReplaceAtFront | main.py:111 | an occurrence at the front is replaced and the search resumes after it |
| StrReplace.ReplaceKeepPrefix | main.py:111 | characters before the first occurrence are kept |
| StrReplace.ReplaceAfterOtherDate | main.py:111 | a YYYY-MM-DD needle does not occur inside a different YYYY-MM-DD text followed by a non-digit |
| Transformer.Step | main.py:109-111 | computes one loop pass: `Skipped` when `shift_date` raises `OverflowError`, else the text with every occurrence of the candidate replaced by its shift |
| Transformer.Rewrite | main.py:108-111 | computes the loop over a candidate list as a fold of `Step` from the original content, staying `Skipped` once a pass raised (main.py:124-125) |
| Transformer.Transform | main.py:103-111 | computes the outcome of `process_file` on a text: the fold over the `findall` candidates of that text |
| Transformer.ShiftAllDates | main.py:108-111 | the loop's result is the fold of the candidate passes over the scan's candidates |
| Transformer.SkippedStays | main.py:124-125 | once a pass raises `OverflowError`, the file is skipped whatever the later candidates are |
| Transformer.RewriteSkippedIff | main.py:124-125 | the loop ends in the handler exactly when one of its candidates' shifts overflows |
| Transformer.TransformSkippedIff | main.py:124-125 | a file is not written exactly when one of its candidates parses and shifts out of years 1..9999 |
| Transformer.RewriteIdentity | main.py:108-111 | when every candidate shifts to itself, the written text equals the input |
| Transformer.TransformZero | main.py:108-111 | with a zero shift the written text equals the input |
| Transformer.ReplaceTwoDates | main.py:111 | for a YYYY-MM-DD needle and a text holding two YYYY-MM-DD dates, no other digits and a non-empty separator between the dates, `replace` swaps exactly the dates equal to the needle |
| Transformer.FindAllTwoDates | main.py:104 | the candidates of a text holding two YYYY-MM-DD dates and no other digits are those two dates in order |
| Transformer.TransformTwoDates | main.py:104-111 | the written text for two YYYY-MM-DD candidates in text with no other digits and a non-empty separator between them, where a first result equal to the second candidate is shifted again |
| Transformer.MeetingExample | main.py:104-111 | "Meeting on 2023-01-15 and follow-up 2023-01-20." with k = 10 becomes "Meeting on 2023-01-25 and follow-up 2023-01-30." |
| Transformer.CascadeExample | main.py:104-111 | "2023-01-15 2023-01-25" with k = 10 becomes "2023-02-04 2023-02-04": the first date is shifted twice |
| Transformer.OverflowSkipsFile | main.py:124-125 | a file holding 9999-12-31 is not written under a shift of +1 |

## Left out

- File reading and writing, encoding detection with `chardet`, and output-path construction (main.py:89-122). These are I/O and foreign library calls. The transformer works on the decoded text, and `Skipped` stands for "not written".
- Directory traversal (`process_directory`), argument parsing, `main`, logging and the random default offset. The offset k is a parameter.
- General `strptime`/`strftime` formats. Only the default `%Y-%m-%d` is modelled. Parsing is limited to the ten-character DDDD-DD-DD shape the scanner produces; `strptime` called directly would also accept forms such as `2023-1-5`.
- IsoDate.Render: the model assumes `%Y` writes years below 1000 as four zero-padded digits. Python's output there depends on the platform C library.
- Scanner.FindAll: only the ASCII digits `0`..`9` count as `\d`. Python 3's `\d` also matches other Unicode decimal digits.
- Shifter.ShiftDate: a `timedelta` of more than 999999999 days raises `OverflowError` when it is built. The model reports every overflow as `OutOfRange`, and any |k| above 3652058 is already out of range.
- Calendar.FromOrdinal: this finds the date by searching years and months, not by Python's 400/100/4-year cycle arithmetic. It is proved to be the exact inverse of `ToOrdinal`, so the dates agree.
- `str.replace`'s optional count argument; the tool never passes it.
