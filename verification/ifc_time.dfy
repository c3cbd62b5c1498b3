/** Conversion between Unix seconds and International Fixed Calendar (IFC)
    dates.  The IFC year has 13 months of 28 days; day 29 of month 13 is
    Year Day, and day 30 of month 13 is Leap Day, which leap years only
    have.  IFC years are numbered like Gregorian years and start on
    January 1, so an IFC date is a day offset from January 1. */
module IfcTime {
  import opened Civil
  import opened PyText

  datatype Result<T, E> = Success(value: T) | Failure(error: E)

  const Months: int := 13
  const DaysPerMonth: int := 28
  /** Year Day and Leap Day are days 29 and 30 of the last month, the
      365th and 366th days of the year. */
  const YearDay: int := 29
  const LeapDay: int := 30
  const YearDayOffset: int := 364
  const LeapDayOffset: int := 365

  /** An IFC date as a (year, month, day) triple. */
  datatype IfcDate = IfcDate(year: int, month: int, day: int)

  /** Days in IFC month `month` of `year`: 28, and month 13 also holds
      Year Day and, in a leap year, Leap Day. */
  function MonthLength(year: int, month: int): int {
    if month < Months then DaysPerMonth
    else if IsLeapYear(year) then LeapDay
    else YearDay
  }

  /** The dates of the calendar: a month from 1 to 13 and a day within its length. */
  predicate ValidIfcDate(d: IfcDate) {
    1 <= d.month <= Months && 1 <= d.day <= MonthLength(d.year, d.month)
  }

  /** The 0-based offset of a date from January 1 of its year. */
  function DayOfYear(d: IfcDate): int {
    (d.month - 1) * DaysPerMonth + (d.day - 1)
  }

  /** The valid dates of a year are numbered 0 .. DaysInYear(year) - 1, without gaps or repeats. */
  lemma DayOfYearInRange(d: IfcDate)
    requires ValidIfcDate(d)
    ensures 0 <= DayOfYear(d) < DaysInYear(d.year)
    ensures d.month < Months ==> DayOfYear(d) < 12 * DaysPerMonth
    ensures d.day == YearDay <==> DayOfYear(d) == YearDayOffset
    ensures d.day == LeapDay <==> DayOfYear(d) == LeapDayOffset
  {
  }

  lemma DayOfYearInjective(d1: IfcDate, d2: IfcDate)
    requires ValidIfcDate(d1) && ValidIfcDate(d2) && d1.year == d2.year
    requires DayOfYear(d1) == DayOfYear(d2)
    ensures d1 == d2
  {
    DayOfYearInRange(d1);
    DayOfYearInRange(d2);
  }

  /** What `unix_to_ifc` produces: a date, or the "{year}-Invalid-Invalid"
      marker for an offset outside 0 .. 365. */
  datatype Output = Date(date: IfcDate) | Invalid(year: int)

  /** The IFC date of day `offset` (counted from 0) of `year`: Year Day
      and Leap Day are special-cased, every other day is 28-day months.
      For every offset the year really has, the date is valid and has
      that offset. */
  function DateOfOffset(year: int, offset: int): (r: Output)
    ensures 0 <= offset < DaysInYear(year) ==>
              r.Date? && r.date.year == year && ValidIfcDate(r.date) && DayOfYear(r.date) == offset
  {
    var leap := IsLeapYear(year);
    if offset == YearDayOffset then Date(IfcDate(year, Months, YearDay))
    else if leap && offset == LeapDayOffset then Date(IfcDate(year, Months, LeapDay))
    else if offset > LeapDayOffset || offset < 0 then Invalid(year)
    else Date(IfcDate(year, offset / DaysPerMonth + 1, offset % DaysPerMonth + 1))
  }

  /** The range guard of `unix_to_ifc` admits offset 365 in a common year,
      which the month formula would turn into month 14; `DayOffsetInYear`
      shows that no instant has that offset. */
  lemma CommonYearOffset365(year: int)
    requires !IsLeapYear(year)
    ensures DateOfOffset(year, LeapDayOffset) == Date(IfcDate(year, 14, 2))
    ensures !ValidIfcDate(IfcDate(year, 14, 2))
  {
  }

  /** `unix_to_ifc` on structured output: the UTC year of the instant, the
      whole days since January 1 of that year, then the IFC date of that
      offset.  The instant's year must be one `datetime` represents.  The
      invalid marker is never produced. */
  function UnixToIfcDate(unixTime: int): (r: Result<Output, DateTimeError>)
    ensures r.Failure? <==> !(MinYear <= YearOfDay(unixTime / SecondsPerDay) <= MaxYear)
    ensures r.Success? ==> r.value.Date? && ValidIfcDate(r.value.date)
                           && r.value.date.year == YearOfDay(unixTime / SecondsPerDay)
                           && DayOfYear(r.value.date) == DayOffsetInYear(unixTime / SecondsPerDay)
  {
    var days := unixTime / SecondsPerDay;
    var year := YearOfDay(days);
    if year < MinYear || year > MaxYear then Failure(YearOutOfRange(year))
    else Success(DateOfOffset(year, DayOffsetInYear(days)))
  }

  /** The text `unix_to_ifc` returns: the year in plain decimal, month and
      day zero-padded to two digits. */
  function Render(o: Output): string {
    match o
    case Date(d) => FormatInt(d.year) + "-" + FormatInt2(d.month) + "-" + FormatInt2(d.day)
    case Invalid(y) => FormatInt(y) + "-Invalid-Invalid"
  }

  /** `unix_to_ifc`: the text it prints is one `ifc_to_unix` accepts, and
      reads back as the midnight UTC that starts the instant's day. */
  function UnixToIfc(unixTime: int): (r: Result<string, DateTimeError>)
    ensures r.Failure? <==> UnixToIfcDate(unixTime).Failure?
    ensures r.Success? ==> IfcToUnix(r.value) == Success(SecondsPerDay * (unixTime / SecondsPerDay))
  {
    match UnixToIfcDate(unixTime)
    case Success(o) =>
      ShortNumberDigits(o.date.year);
      ShortNumberDigits(o.date.month);
      ShortNumberDigits(o.date.day);
      ParseRenderedFields(o.date);
      InstantRoundTrip(unixTime);
      Success(Render(o))
    case Failure(e) => Failure(e)
  }

  /** The `ValueError`s `ifc_to_unix` raises itself. */
  datatype Rule =
    | WrongFieldCount
    | MonthOutOfRange
    | DayNotPositive
    | Month13DayAbove30
    | LeapDayInCommonYear
    | DayAbove28

  function Message(rule: Rule): string {
    match rule
    case WrongFieldCount => "IFC date must be in YYYY-MM-DD format"
    case MonthOutOfRange => "Month must be between 1 and 13"
    case DayNotPositive => "Day must be positive"
    case Month13DayAbove30 => "December (month 13) max day is 30"
    case LeapDayInCommonYear => "Leap Day (Dec 30) occurs only in leap years"
    case DayAbove28 => "Day cannot be greater than 28 for months 1 to 12"
  }

  /** Why `ifc_to_unix` failed: a rule it checks itself, a field `int()`
      rejects, or a year `datetime` rejects. */
  datatype Cause = Raised(rule: Rule) | NotAnInteger(field: string) | DateTime(error: DateTimeError)

  function Describe(c: Cause): string {
    match c
    case Raised(rule) => Message(rule)
    case NotAnInteger(field) => "invalid literal for int() with base 10: '" + field + "'"
    case DateTime(YearOutOfRange(y)) => "year " + FormatInt(y) + " is out of range"
  }

  const EnvelopePrefix: string := "Error parsing IFC date '"

  /** The single `ValueError` every failure of `ifc_to_unix` is re-raised
      as: the input exactly as given, and the cause. */
  datatype ParseFailure = ParseFailure(input: string, cause: Cause)

  /** The message of that `ValueError`: it quotes the whole input. */
  function FailureText(f: ParseFailure): (msg: string)
    ensures |msg| > |EnvelopePrefix| + |f.input|
    ensures msg[..|EnvelopePrefix|] == EnvelopePrefix
    ensures msg[|EnvelopePrefix|..|EnvelopePrefix| + |f.input|] == f.input
  {
    EnvelopePrefix + f.input + "': " + Describe(f.cause)
  }

  /** The validation and arithmetic of `ifc_to_unix` on parsed fields:
      the checks in the source's order, then January 1 of the year plus
      `(month - 1) * 28 + (day - 1)` days, in seconds.  The date lands in
      its own year, on the day the offset names. */
  function FieldsToUnix(d: IfcDate): (r: Result<int, Cause>)
    ensures r.Success? ==> ValidIfcDate(d) && MinYear <= d.year <= MaxYear
    ensures r.Success? ==> r.value % SecondsPerDay == 0
                           && YearOfDay(r.value / SecondsPerDay) == d.year
                           && DayOffsetInYear(r.value / SecondsPerDay) == DayOfYear(d)
    ensures r.Failure? && r.error.Raised? ==> !ValidIfcDate(d)
    ensures r.Failure? && r.error.DateTime? ==> ValidIfcDate(d) && r.error.error == YearOutOfRange(d.year)
  {
    var leap := IsLeapYear(d.year);
    if d.month < 1 || d.month > Months then Failure(Raised(MonthOutOfRange))
    else if d.day < 1 then Failure(Raised(DayNotPositive))
    else if d.month == Months && d.day > LeapDay then Failure(Raised(Month13DayAbove30))
    else if d.month == Months && d.day == LeapDay && !leap then Failure(Raised(LeapDayInCommonYear))
    else if d.month != Months && d.day > DaysPerMonth then Failure(Raised(DayAbove28))
    else if d.year < MinYear || d.year > MaxYear then Failure(DateTime(YearOutOfRange(d.year)))
    else
      var days := DaysBeforeYear(d.year) + DayOfYear(d);
      DayOfYearInRange(d);
      YearOfDayUnique(d.year, days);
      assert (SecondsPerDay * days) / SecondsPerDay == days;
      Success(SecondsPerDay * days)
  }

  /** The parsing half of `ifc_to_unix`: strip, split on '-' into exactly
      three fields, and read each field with `int()`, in order. */
  function ParseFields(s: string): (r: Result<IfcDate, Cause>)
    ensures |Split(Strip(s), '-')| != 3 ==> r == Failure(Raised(WrongFieldCount))
    ensures r.Failure? ==> r.error.Raised? ==> r.error.rule == WrongFieldCount
    ensures var p := Split(Strip(s), '-');
            r.Success? ==> && |p| == 3
                           && ParseInt(p[0]) == Some(r.value.year)
                           && ParseInt(p[1]) == Some(r.value.month)
                           && ParseInt(p[2]) == Some(r.value.day)
    ensures var p := Split(Strip(s), '-');
            |p| == 3 && ParseInt(p[0]).Some? && ParseInt(p[1]).Some? && ParseInt(p[2]).Some? ==> r.Success?
    ensures var p := Split(Strip(s), '-');
            r.Failure? && r.error.NotAnInteger? ==>
              && |p| == 3
              && ParseInt(r.error.field) == None
              && (|| r.error.field == p[0]
                  || (ParseInt(p[0]).Some? && r.error.field == p[1])
                  || (ParseInt(p[0]).Some? && ParseInt(p[1]).Some? && r.error.field == p[2]))
  {
    var parts := Split(Strip(s), '-');
    if |parts| != 3 then Failure(Raised(WrongFieldCount))
    else
      match (ParseInt(parts[0]), ParseInt(parts[1]), ParseInt(parts[2]))
      case (None, _, _) => Failure(NotAnInteger(parts[0]))
      case (Some(_), None, _) => Failure(NotAnInteger(parts[1]))
      case (Some(_), Some(_), None) => Failure(NotAnInteger(parts[2]))
      case (Some(year), Some(month), Some(day)) => Success(IfcDate(year, month, day))
  }

  /** `ifc_to_unix`: every failure comes back in one envelope that carries
      the input as given. */
  function IfcToUnix(s: string): (r: Result<int, ParseFailure>)
    ensures r.Failure? ==> r.error.input == s
    ensures |Split(Strip(s), '-')| != 3 ==> r == Failure(ParseFailure(s, Raised(WrongFieldCount)))
    ensures r.Success? <==> && ParseFields(s).Success?
                            && ValidIfcDate(ParseFields(s).value)
                            && MinYear <= ParseFields(s).value.year <= MaxYear
    ensures r.Success? ==> ParseFields(s).Success? && FieldsToUnix(ParseFields(s).value) == Success(r.value)
    ensures r.Failure? && ParseFields(s).Failure? ==> r.error.cause == ParseFields(s).error
    ensures r.Failure? && ParseFields(s).Success? ==> r.error.cause == FieldsToUnix(ParseFields(s).value).error
  {
    match ParseFields(s)
    case Failure(c) => Failure(ParseFailure(s, c))
    case Success(d) =>
      FieldsToUnixAccepts(d);
      match FieldsToUnix(d)
      case Failure(c) => Failure(ParseFailure(s, c))
      case Success(t) => Success(t)
  }

  /** Three '-'-separated fields whose first one `int()` rejects: the
      failure names that field and the whole input. */
  lemma FirstFieldRejected(a: string, b: string, c: string)
    requires '-' !in a && '-' !in b && '-' !in c
    requires a != [] && c != [] && !IsSpace(a[0]) && !IsSpace(c[|c| - 1])
    requires ParseInt(a) == None
    ensures var s := a + ['-'] + b + ['-'] + c;
            IfcToUnix(s) == Failure(ParseFailure(s, NotAnInteger(a)))
  {
    var s := a + ['-'] + b + ['-'] + c;
    assert Strip(s) == s by {
      assert s[0] == a[0] && s[|s| - 1] == c[|c| - 1];
      StripUnchanged(s, IsSpace);
    }
    SplitThreeFields(a, b, c, '-');
  }

  // ---------------------------------------------------------------------
  // Properties

  /** `ifc_to_unix` accepts a triple exactly when it is a date of the
      calendar in a year `datetime` represents. */
  lemma FieldsToUnixAccepts(d: IfcDate)
    ensures FieldsToUnix(d).Success? <==> ValidIfcDate(d) && MinYear <= d.year <= MaxYear
  {
  }

  /** Round trip from the IFC side: converting a valid date to seconds and
      back yields the same date; the generic offset formula and the
      special cases for Year Day and Leap Day agree. */
  lemma {:induction false} DateRoundTrip(d: IfcDate)
    requires ValidIfcDate(d) && MinYear <= d.year <= MaxYear
    ensures FieldsToUnix(d).Success?
    ensures UnixToIfcDate(FieldsToUnix(d).value) == Success(Date(d))
  {
    var t := FieldsToUnix(d).value;
    var r := UnixToIfcDate(t);
    DayOfYearInjective(r.value.date, d);
  }

  /** Round trip from the seconds side: the date of an instant converts
      back to midnight UTC at the start of that instant's day. */
  lemma InstantRoundTrip(unixTime: int)
    requires UnixToIfcDate(unixTime).Success?
    ensures FieldsToUnix(UnixToIfcDate(unixTime).value.date)
         == Success(SecondsPerDay * (unixTime / SecondsPerDay))
  {
  }

  /** Time of day does not matter: every instant of a UTC day has the
      date of that day's midnight. */
  lemma TimeOfDayIgnored(day: int, second: int)
    requires 0 <= second < SecondsPerDay
    ensures UnixToIfcDate(SecondsPerDay * day + second) == UnixToIfcDate(SecondsPerDay * day)
  {
    assert (SecondsPerDay * day + second) / SecondsPerDay == day;
    assert (SecondsPerDay * day) / SecondsPerDay == day;
  }

  /** The 365th day of every year is Year Day, and the 366th day of a
      leap year is Leap Day. */
  lemma YearDayAndLeapDay(year: int)
    requires MinYear <= year <= MaxYear
    ensures UnixToIfcDate(SecondsPerDay * (DaysBeforeYear(year) + YearDayOffset))
         == Success(Date(IfcDate(year, 13, 29)))
    ensures IsLeapYear(year) ==>
              (UnixToIfcDate(SecondsPerDay * (DaysBeforeYear(year) + LeapDayOffset))
               == Success(Date(IfcDate(year, 13, 30))))
  {
    DateRoundTrip(IfcDate(year, 13, 29));
    if IsLeapYear(year) {
      DateRoundTrip(IfcDate(year, 13, 30));
    }
  }

  /** Every other day of the year falls in a 28-day month: months 1 .. 13,
      days 1 .. 28, offset = (month - 1) * 28 + (day - 1). */
  lemma OrdinaryDays(unixTime: int)
    requires UnixToIfcDate(unixTime).Success?
    requires DayOffsetInYear(unixTime / SecondsPerDay) < YearDayOffset
    ensures var d := UnixToIfcDate(unixTime).value.date;
            && 1 <= d.month <= 13 && 1 <= d.day <= 28
            && d.month == DayOffsetInYear(unixTime / SecondsPerDay) / 28 + 1
            && d.day == DayOffsetInYear(unixTime / SecondsPerDay) % 28 + 1
  {
  }

  /** The rendering of a date with a non-negative year is its three fields joined by '-'. */
  lemma RenderFields(d: IfcDate)
    requires d.year >= 0 && d.month >= 0 && d.day >= 0
    ensures Split(Strip(Render(Date(d))), '-') == [FormatInt(d.year), FormatInt2(d.month), FormatInt2(d.day)]
  {
    var y, m, dd := FormatInt(d.year), FormatInt2(d.month), FormatInt2(d.day);
    var s := Render(Date(d));
    assert s == y + ['-'] + m + ['-'] + dd;
    assert Strip(s) == s by {
      assert s[0] == y[0] && s[|s| - 1] == dd[|dd| - 1];
      StripUnchanged(s, IsSpace);
    }
    SplitThreeFields(y, m, dd, '-');
  }

  /** Three fields that `int()` reads as a date's year, month and day parse
      to that date. */
  lemma ParseThreeFields(s: string, d: IfcDate)
    requires var p := Split(Strip(s), '-');
             && |p| == 3 && ParseInt(p[0]) == Some(d.year)
             && ParseInt(p[1]) == Some(d.month) && ParseInt(p[2]) == Some(d.day)
    ensures ParseFields(s) == Success(d)
  {
  }

  /** `ifc_to_unix` reads back the fields `unix_to_ifc` writes. */
  lemma ParseRenderedFields(d: IfcDate)
    requires d.year >= 0 && d.month >= 0 && d.day >= 0
    requires DigitCount(FormatInt(d.year)) <= MaxStrDigits
    requires DigitCount(FormatInt2(d.month)) <= MaxStrDigits
    requires DigitCount(FormatInt2(d.day)) <= MaxStrDigits
    ensures ParseFields(Render(Date(d))) == Success(d)
  {
    RenderFields(d);
    ParseFormatInt(d.year);
    ParseFormatInt2(d.month);
    ParseFormatInt2(d.day);
    ParseThreeFields(Render(Date(d)), d);
  }

  /** Round trip on the text: what `ifc_to_unix` accepts from the rendering
      of a valid date, `unix_to_ifc` renders back to the same text. */
  lemma TextRoundTrip(d: IfcDate)
    requires ValidIfcDate(d) && MinYear <= d.year <= MaxYear
    ensures IfcToUnix(Render(Date(d))).Success?
    ensures UnixToIfc(IfcToUnix(Render(Date(d))).value) == Success(Render(Date(d)))
  {
    ShortNumberDigits(d.year);
    ShortNumberDigits(d.month);
    ShortNumberDigits(d.day);
    ParseRenderedFields(d);
    DateRoundTrip(d);
  }
}
