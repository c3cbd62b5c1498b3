# IFC time conversion, modelled in Dafny

`unixToIfcTime.py` converts between Unix time and the International Fixed
Calendar (IFC). An IFC year has 13 months of 28 days. Day 29 of month 13 is
Year Day, and day 30 of month 13 is Leap Day, which only Gregorian leap years
have. IFC years start on January 1 and carry the Gregorian year number, so an
IFC date is simply a day offset from January 1.

The model covers the three conversion functions of the script:

- `is_leap_year`: the Gregorian leap-year rule.
- `unix_to_ifc`: seconds since the epoch to an IFC date string `Y-MM-DD`.
- `ifc_to_unix`: an IFC date string back to the seconds at midnight UTC that
  starts that day. Every failure is re-raised as a single `ValueError` that
  quotes the input.

The project has four modules:

- `Civil` (`civil.dfy`): the part of Python's `datetime` the conversions use,
  written as integer arithmetic on days counted from 1970-01-01.
  - The closed-form day count of January 1 of a year.
  - The year a day falls in, peeled off in 400-, 100-, 4- and 1-year cycles
    as `datetime` does.
  - The year range 1..9999 that `datetime` accepts.
- `PyText` (`pytext.dfy`): the Python string operations the conversions use.
  - `str.strip()` and `str.split("-")`.
  - `int()` on a decimal field.
  - f-string rendering of `{n}` and `{n:02d}`.
- `IfcTime` (`ifc_time.dfy`): the conversions themselves.
  - Both directions.
  - The error causes, with the exact messages.
  - The round-trip and calendar properties.
- `IfcExamples` (`examples_ifc.dfy`): concrete instants, field triples and an
  input string, each with the result the conversions give for it.

Python's `//` and `%` with a positive divisor agree with Dafny's `/` and `%`,
so the leap rule and the month and day formulas carry over unchanged for
every integer. Where `datetime` raises because a year is outside 1..9999,
the model returns `Failure(YearOutOfRange(year))`.

The year is written with `f"{year}"`, without padding; month and day are
zero-padded to two digits.

`str.strip()` and `int()` do not skip the same characters. `int()` leaves the
ASCII separators U+001C to U+001F in place, so a field such as `"\x1c5"`
inside the string is rejected even though `strip()` would remove that
character. The model has one whitespace predicate for each.

## Model

| member | source | states |
|---|---|---|
| Civil.IsLeapYear | unixToIfcTime.py:10-11 | a year is a leap year when divisible by 4 and not by 100, or divisible by 400; Python's floored `%` agrees with Dafny's for every integer year |
| Civil.LeapYearExamples | unixToIfcTime.py:10-11 | 2000 and 2024 are leap years; 1900, 2023 and 2100 are not |
| Civil.DaysBeforeYear | unixToIfcTime.py:16 | the day count from 1970-01-01 to `datetime(year, 1, 1)`, in the closed form `datetime` uses; it is tied to the leap rule by DaysBeforeNextYear |
| Civil.DaysBeforeNextYear | unixToIfcTime.py:10-11 | January 1 of the next year is exactly one year later, 366 days in a leap year and 365 otherwise, so the closed-form day count agrees with the leap rule |
| Civil.DaysBeforeYearMonotone | unixToIfcTime.py:14-16 | January firsts are increasing, at least 365 days per year apart |
| Civil.YearOfDay | unixToIfcTime.py:14-15 | the year `datetime` assigns to a day: that day lies between January 1 of the year and January 1 of the next |
| Civil.YearOfDayUnique | unixToIfcTime.py:14-16 | every day lies in exactly one year, so any year whose span contains the day is the year `YearOfDay` returns |
| Civil.DayOffsetInYear | unixToIfcTime.py:16-17 | the whole days since January 1 lie in 0..365, and 365 occurs only in a leap year |
| IfcTime.ValidIfcDate | unixToIfcTime.py:50-65 | the dates the checks accept: month 1..13 and day 1..28, with day 29 in month 13 and day 30 in month 13 of a leap year; FieldsToUnixAccepts ties it to the checks |
| IfcTime.DayOfYear | unixToIfcTime.py:67 | the offset `(month - 1) * 28 + (day - 1)` from January 1; DayOfYearInRange and DayOfYearInjective state its properties |
| IfcTime.DayOfYearInRange | unixToIfcTime.py:67 | the offset of a valid date lies within its year; day 29 is offset 364 and day 30 is offset 365, and vice versa |
| IfcTime.DayOfYearInjective | unixToIfcTime.py:67 | two valid dates of one year with the same offset are the same date |
| IfcTime.DateOfOffset | unixToIfcTime.py:18-30 | for every offset the year actually has, the result is a valid IFC date of that year whose offset is that offset |
| IfcTime.CommonYearOffset365 | unixToIfcTime.py:23-30 | the range guard lets offset 365 through in a common year, where it would render month 14, day 2, which is not a date |
| IfcTime.UnixToIfcDate | unixToIfcTime.py:13-30 | fails exactly when the instant's UTC year is outside 1..9999; otherwise gives a valid date in that year at the instant's day offset, never the invalid marker |
| IfcTime.Render | unixToIfcTime.py:28-32 | the year in plain decimal, then month and day padded to two digits, joined by '-'; or the year followed by `-Invalid-Invalid`; RenderFields and ParseRenderedFields state what it means |
| IfcTime.UnixToIfc | unixToIfcTime.py:13-32 | fails exactly when the date conversion fails; otherwise the printed text is accepted by `ifc_to_unix`, which reads it back as the midnight UTC that starts the instant's day |
| IfcTime.Message | unixToIfcTime.py:42-65 | the exact text of each `ValueError` the conversion raises itself |
| IfcTime.Describe | unixToIfcTime.py:44-74 | the text after the envelope: the rule's message, the `int()` complaint that quotes the field, or the year range complaint |
| IfcTime.FailureText | unixToIfcTime.py:73-74 | the wrapped error message starts with the fixed prefix followed by the whole input exactly as given |
| IfcTime.FieldsToUnix | unixToIfcTime.py:48-71 | success only for a valid date in 1..9999, giving a midnight instant whose year and day offset are the date's. A rule failure means the date is invalid. A `datetime` failure means a valid date whose year is out of range |
| IfcTime.ParseFields | unixToIfcTime.py:40-46 | anything other than three '-'-separated fields is the field-count error, the only rule this step raises. A success holds `int()` of the three fields, in order, and three fields `int()` all accepts always succeed. A field `int()` rejects is reported only if it is the first such field |
| IfcTime.IfcToUnix | unixToIfcTime.py:38-74 | succeeds exactly when the fields parse to a calendar date in a year 1..9999, with the field conversion's instant. Every failure carries the input as given and the inner cause, from parsing or from the field checks |
| IfcTime.FirstFieldRejected | unixToIfcTime.py:40-46 | when `int()` rejects the first of three fields, the failure names that field and the whole input |
| IfcTime.FieldsToUnixAccepts | unixToIfcTime.py:50-71 | a triple is accepted if and only if it is a calendar date in a year 1..9999 |
| IfcTime.DateRoundTrip | unixToIfcTime.py:67-71 | converting a valid date to seconds and back gives the same date |
| IfcTime.InstantRoundTrip | unixToIfcTime.py:14-17 | the date of an instant converts back to the midnight UTC that starts the instant's day |
| IfcTime.TimeOfDayIgnored | unixToIfcTime.py:14-17 | every second of a UTC day has the date of that day's midnight |
| IfcTime.YearDayAndLeapDay | unixToIfcTime.py:20-25 | the 365th day of every year is month 13, day 29; the 366th day of a leap year is month 13, day 30 |
| IfcTime.OrdinaryDays | unixToIfcTime.py:26-30 | every other day falls in months 1..13, days 1..28, given by offset // 28 + 1 and offset % 28 + 1 |
| IfcTime.RenderFields | unixToIfcTime.py:32 | the rendering of a date splits back into its three rendered fields |
| IfcTime.ParseThreeFields | unixToIfcTime.py:40-46 | three fields that `int()` reads as a date's year, month and day parse to that date |
| IfcTime.ParseRenderedFields | unixToIfcTime.py:40-46 | parsing the rendering of a date gives back its year, month and day, when each rendered field is within `int()`'s 4300-digit limit |
| IfcTime.TextRoundTrip | unixToIfcTime.py:32-71 | the rendering of a valid date is accepted, and the resulting instant renders back to the same text |
| PyText.LeadingRun | unixToIfcTime.py:40 | the longest prefix of whitespace: every character before it is whitespace, and the next one is not |
| PyText.TrailingRun | unixToIfcTime.py:40 | the longest suffix of whitespace: every character in it is whitespace, and the one before it is not |
| PyText.StripBy | unixToIfcTime.py:40 | the result is the piece of the input between a whitespace-only prefix and a whitespace-only suffix, and is empty or begins and ends with a non-space |
| PyText.Strip | unixToIfcTime.py:40 | `str.strip()`: StripBy with the whitespace `str.strip()` removes |
| PyText.StripUnchanged | unixToIfcTime.py:40 | a string with no whitespace at either end is left unchanged |
| PyText.Split | unixToIfcTime.py:40 | there is at least one piece, and no piece contains the separator |
| PyText.SplitCount | unixToIfcTime.py:40-41 | the number of pieces is the number of separators plus one |
| PyText.JoinSplit | unixToIfcTime.py:40 | joining the pieces with the separator restores the string |
| PyText.SplitJoin | unixToIfcTime.py:40 | splitting separator-free pieces joined by the separator restores the pieces |
| PyText.SplitThreeFields | unixToIfcTime.py:40-41 | three separator-free fields joined by the separator split into exactly those three fields |
| PyText.ParseInt | unixToIfcTime.py:44-46 | `int()` of a field: what it accepts, once stripped of the whitespace `int()` skips, ends in a digit, has at most 4300 digits, and a negative value starts with a minus sign; ParseFormatInt and ParseFormatInt2 pin its values |
| PyText.DigitCount | unixToIfcTime.py:44-46 | the digits `int()` counts against its limit: at most the length of the text, and exactly its length for a text of digits only |
| PyText.LongFieldRejected | unixToIfcTime.py:44-46 | `int()` rejects a field of 4300 zeros followed by a 1, since leading zeros count toward the 4300-digit limit |
| PyText.SeparatorKeptByInt | unixToIfcTime.py:40-46 | U+001C before a digit is removed by `str.strip()` but makes `int()` fail |
| PyText.ParseIntRejectsNonDigit | unixToIfcTime.py:44-46 | `int()` rejects a field that starts with neither a digit, a sign nor whitespace `int()` skips, whatever follows |
| PyText.ParseDigits | unixToIfcTime.py:44-46 | `int()` of a digit string of at most 4300 digits is its value |
| PyText.ParseNegativeDigits | unixToIfcTime.py:44-46 | `int()` of a minus sign followed by a digit string of at most 4300 digits is the negated value |
| PyText.FormatNat | unixToIfcTime.py:32 | the decimal form of a natural number is all digits, with no leading zero; it is one digit exactly below 10, and at most two below 100 |
| PyText.FormatInt | unixToIfcTime.py:32 | `{n}` of a non-negative number is ASCII digits with no leading zero; of a negative number, a minus sign followed by such digits |
| PyText.FormatInt2 | unixToIfcTime.py:32 | `{n:02d}` is exactly two digits for 0..99 and at least two characters always; from 10 on there is no leading zero; digits only for non-negative numbers, a leading minus sign for negative ones |
| PyText.DigitsValueOfFormatNat | unixToIfcTime.py:32 | the digits written for n have the value n |
| PyText.ParseFormatInt | unixToIfcTime.py:44 | `int()` reads back what `{n}` writes, for every integer written with at most 4300 digits |
| PyText.ParseFormatInt2 | unixToIfcTime.py:45-46 | `int()` reads back what `{n:02d}` writes, for every integer written with at most 4300 digits |
| PyText.ShortNumberDigits | unixToIfcTime.py:32 | numbers 0..9999, which cover the years `datetime` represents and IFC months and days, are written with at most four digits, well within `int()`'s limit |
| IfcExamples.ForwardExamples | unixToIfcTime.py:13-30 | 1735689600 is IFC 2025-01-01, and 1740787200 (Gregorian 2025-03-01) is IFC 2025-03-04 |
| IfcExamples.SpecialDayExamples | unixToIfcTime.py:20-25 | 2023-12-31 is Year Day (13-29) and 2024-12-31 is Leap Day (13-30) |
| IfcExamples.RejectedFieldExamples | unixToIfcTime.py:50-69 | 2023-13-30, 2024-14-01, 2024-01-29 and year 0 are each rejected with their own cause |
| IfcExamples.FieldCountExample | unixToIfcTime.py:40-42 | "2024-01-01-01" is rejected for its field count, inside the envelope that quotes it |

## Left out

- The command-line front end (`main`, `argparse`) is not modelled. Neither is its check that treats `-u 0` as absent.
- `print_fancy` is not modelled. It only prints.
- `IFC_MONTHS` is not modelled. It is used only for display.
- `date_to_unix` is not modelled. It reads the local time zone through `time.mktime`.
- The current time (`time.time()`) is not modelled. Instants are parameters.
- Unicode digits other than ASCII `0`-`9`, which `int()` also accepts, are not modelled. `int()` is modelled as surrounding whitespace, an optional sign, then at most 4300 ASCII digits with single underscores between them.
- A field with more than 4300 digits is rejected with the same `NotAnInteger` cause and message as any other field `int()` rejects. Python's own message for it names the digit limit instead.
- PyText.FormatInt: `str()` of an integer with more than 4300 digits also raises `ValueError` in Python, which FormatInt does not model. The conversions only render years 1..9999 and months and days below 100, which ShortNumberDigits shows are far from the limit.
- The exact text of library exceptions is not modelled, only their cause. This covers the `repr` quoting in `int()` messages, `OverflowError` for huge values, and platform `time_t` limits of `fromtimestamp`. Every year `datetime` cannot represent becomes `YearOutOfRange`.
- The guard at lines 60-61 is not modelled. It tests `28 < day < 29`, which no integer meets, so it never raises.
- `timestamp()` returns a float. The model treats it as exact, which it is for whole days in years 1..9999.
- IfcTime.UnixToIfcDate: a year outside 1..9999 is one uniform failure. The model does not say which Python exception type is raised.
