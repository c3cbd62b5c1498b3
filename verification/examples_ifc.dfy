/** Concrete conversions: instants at midnight UTC and IFC date strings,
    with the dates and errors the conversions give for them. */
module IfcExamples {
  import opened Civil
  import opened PyText
  import opened IfcTime

  /** 2025-01-01 00:00:00 UTC is IFC 2025-01-01, and 2025-03-01 (day
      offset 59) is IFC 2025-03-04. */
  lemma ForwardExamples()
    ensures UnixToIfcDate(1735689600) == Success(Date(IfcDate(2025, 1, 1)))
    ensures UnixToIfcDate(1740787200) == Success(Date(IfcDate(2025, 3, 4)))
  {
    assert DaysBeforeYear(2025) == 20089;
    DateRoundTrip(IfcDate(2025, 1, 1));
    DateRoundTrip(IfcDate(2025, 3, 4));
  }

  /** December 31 is Year Day in 2023 and Leap Day in 2024. */
  lemma SpecialDayExamples()
    ensures UnixToIfcDate(1703980800) == Success(Date(IfcDate(2023, 13, 29)))
    ensures UnixToIfcDate(1735603200) == Success(Date(IfcDate(2024, 13, 30)))
  {
    assert DaysBeforeYear(2023) == 19358;
    assert DaysBeforeYear(2024) == 19723;
    YearDayAndLeapDay(2023);
    YearDayAndLeapDay(2024);
  }

  /** The fields of ill-formed dates, rejected with the rule they break. */
  lemma RejectedFieldExamples()
    ensures FieldsToUnix(IfcDate(2023, 13, 30)) == Failure(Raised(LeapDayInCommonYear))
    ensures FieldsToUnix(IfcDate(2024, 14, 1)) == Failure(Raised(MonthOutOfRange))
    ensures FieldsToUnix(IfcDate(2024, 1, 29)) == Failure(Raised(DayAbove28))
    ensures FieldsToUnix(IfcDate(0, 13, 29)) == Failure(DateTime(YearOutOfRange(0)))
  {
  }

  /** Four fields are one too many. */
  lemma FieldCountExample()
    ensures IfcToUnix("2024-01-01-01") == Failure(ParseFailure("2024-01-01-01", Raised(WrongFieldCount)))
  {
    var rest := "01" + ['-'] + "01" + ['-'] + "01";
    var s := "2024" + ['-'] + rest;
    assert '-' !in "2024" && '-' !in "01";
    SplitThreeFields("01", "01", "01", '-');
    SplitField("2024", rest, '-');
    StripUnchanged(s, IsSpace);
    assert IfcToUnix(s) == Failure(ParseFailure(s, Raised(WrongFieldCount)));
    FourFieldText();
  }

  lemma FourFieldText()
    ensures "2024" + ['-'] + ("01" + ['-'] + "01" + ['-'] + "01") == "2024-01-01-01"
  {
  }
}
