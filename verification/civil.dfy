/** Proleptic Gregorian calendar arithmetic on whole days counted from the
    Unix epoch (1970-01-01 = day 0), with the year limits of Python's
    `datetime`.  This is the part of `datetime` that the IFC conversions
    rely on: the year an instant falls in, and the day count of January 1
    of a year. */
module Civil {

  const SecondsPerDay: int := 86400
  /** `datetime` represents the years 1 through 9999 only. */
  const MinYear: int := 1
  const MaxYear: int := 9999
  /** Days from 0001-01-01 to 1970-01-01. */
  const EpochOrdinal: int := 719162
  const DaysPer400Years: int := 146097
  const DaysPer100Years: int := 36524
  const DaysPer4Years: int := 1461

  /** The error `datetime` raises for a year it cannot represent. */
  datatype DateTimeError = YearOutOfRange(year: int)

  /** The Gregorian proleptic leap-year rule.  Dafny's `%` with a positive
      divisor agrees with Python's, so the rule is the same for every
      integer, negative years included. */
  predicate IsLeapYear(year: int) {
    year % 4 == 0 && (year % 100 != 0 || year % 400 == 0)
  }

  /** The leap-year rule on the years the conversions are usually shown with. */
  lemma LeapYearExamples()
    ensures IsLeapYear(2000) && IsLeapYear(2024)
    ensures !IsLeapYear(1900) && !IsLeapYear(2023) && !IsLeapYear(2100)
  {
  }

  function DaysInYear(year: int): int {
    if IsLeapYear(year) then 366 else 365
  }

  /** Days from 1970-01-01 to January 1 of `year` (negative before 1970):
      the closed form `datetime` uses, counted from the epoch. */
  function DaysBeforeYear(year: int): int {
    var p := year - 1;
    365 * p + p / 4 - p / 100 + p / 400 - EpochOrdinal
  }

  /** The closed form counts one leap day per leap year: consecutive
      January firsts are exactly one year's length apart. */
  lemma DaysBeforeNextYear(year: int)
    ensures DaysBeforeYear(year + 1) == DaysBeforeYear(year) + DaysInYear(year)
  {
    QuotientStep4(year - 1);
    QuotientStep100(year - 1);
    QuotientStep400(year - 1);
    DivisorsOfCenturies(year);
  }

  /** A multiple of 400 is a multiple of 100, and a multiple of 100 one of 4. */
  lemma DivisorsOfCenturies(y: int)
    ensures y % 400 == 0 ==> y % 100 == 0
    ensures y % 100 == 0 ==> y % 4 == 0
  {
    if y % 400 == 0 {
      CenturyOfMultiple(y / 400);
    }
    if y % 100 == 0 {
      LeapOfMultiple(y / 100);
    }
  }

  lemma CenturyOfMultiple(k: int)
    ensures (400 * k) % 100 == 0
  {
    assert 400 * k == 100 * (4 * k);
  }

  lemma LeapOfMultiple(j: int)
    ensures (100 * j) % 4 == 0
  {
    assert 100 * j == 4 * (25 * j);
  }

  /** How the quotients in `DaysBeforeYear` change from one year to the next. */
  lemma QuotientStep4(p: int)
    ensures (p + 1) / 4 == p / 4 + (if (p + 1) % 4 == 0 then 1 else 0)
  {
    var q, r := p / 4, p % 4;
    if r == 3 {
      assert p + 1 == 4 * (q + 1);
    } else {
      assert p + 1 == 4 * q + (r + 1);
    }
  }

  lemma QuotientStep100(p: int)
    ensures (p + 1) / 100 == p / 100 + (if (p + 1) % 100 == 0 then 1 else 0)
  {
    var q, r := p / 100, p % 100;
    if r == 99 {
      assert p + 1 == 100 * (q + 1);
    } else {
      assert p + 1 == 100 * q + (r + 1);
    }
  }

  lemma QuotientStep400(p: int)
    ensures (p + 1) / 400 == p / 400 + (if (p + 1) % 400 == 0 then 1 else 0)
  {
    var q, r := p / 400, p % 400;
    if r == 399 {
      assert p + 1 == 400 * (q + 1);
    } else {
      assert p + 1 == 400 * q + (r + 1);
    }
  }

  /** January firsts are strictly increasing, at least 365 days apart per year. */
  lemma {:induction false} DaysBeforeYearMonotone(a: int, b: int)
    requires a <= b
    ensures DaysBeforeYear(a) + 365 * (b - a) <= DaysBeforeYear(b)
    decreases b - a
  {
    if a < b {
      DaysBeforeYearMonotone(a, b - 1);
      DaysBeforeNextYear(b - 1);
    }
  }

  /** The closed form on a year written in 400/100/4/1-year cycles. */
  lemma DaysBeforeYearInCycles(a: int, b: int, c: int, d: int)
    requires 0 <= b <= 3 && 0 <= c <= 24 && 0 <= d <= 3
    ensures DaysBeforeYear(400 * a + 100 * b + 4 * c + d + 1)
         == DaysPer400Years * a + DaysPer100Years * b + DaysPer4Years * c + 365 * d - EpochOrdinal
  {
    var p := 400 * a + 100 * b + 4 * c + d;
    assert p / 4 == 100 * a + 25 * b + c;
    assert p / 100 == 4 * a + b;
    assert p / 400 == a;
  }

  /** The last day of a 400-year cycle is day 366 of a leap year. */
  lemma LastDayOf400Years(a: int)
    ensures IsLeapYear(400 * a + 400)
    ensures DaysBeforeYear(400 * a + 400) + 365 == DaysPer400Years * a + DaysPer400Years - 1 - EpochOrdinal
  {
    var y := 400 * a + 400;
    assert y % 4 == 0 by {
      assert y == 4 * (100 * a + 100);
    }
    assert y % 400 == 0 by {
      assert y == 400 * (a + 1);
    }
    DaysBeforeYearInCycles(a, 3, 24, 3);
  }

  /** A year that ends a 4-year cycle but not a century is a leap year. */
  lemma FourYearEndIsLeap(q: int, c: int)
    requires 0 <= c <= 23
    ensures IsLeapYear(100 * q + 4 * c + 4)
  {
    var y := 100 * q + 4 * c + 4;
    var k := 25 * q + c + 1;
    assert y % 4 == 0 by {
      assert y == 4 * k;
    }
    assert y % 100 != 0 by {
      assert y / 100 == q;
    }
  }

  /** The last day of a 4-year cycle that does not end a century is day 366 of a leap year. */
  lemma LastDayOf4Years(a: int, b: int, c: int)
    requires 0 <= b <= 3 && 0 <= c <= 23
    ensures IsLeapYear(400 * a + 100 * b + 4 * c + 4)
    ensures DaysBeforeYear(400 * a + 100 * b + 4 * c + 4) + 365
         == DaysPer400Years * a + DaysPer100Years * b + DaysPer4Years * c + DaysPer4Years - 1 - EpochOrdinal
  {
    FourYearEndIsLeap(4 * a + b, c);
    assert 100 * (4 * a + b) + 4 * c + 4 == 400 * a + 100 * b + 4 * c + 4;
    DaysBeforeYearInCycles(a, b, c, 3);
  }

  /** The year that day `days` falls in, computed as `datetime` does: by
      peeling off 400-, 100-, 4- and 1-year cycles; a count of 4 in the
      100-year or the 1-year position is the last day of a leap year. */
  function YearOfDay(days: int): (year: int)
    ensures DaysBeforeYear(year) <= days < DaysBeforeYear(year) + DaysInYear(year)
  {
    var n := days + EpochOrdinal;
    var a := n / DaysPer400Years;
    var r400 := n % DaysPer400Years;
    var b := r400 / DaysPer100Years;
    var r100 := r400 % DaysPer100Years;
    var c := r100 / DaysPer4Years;
    var r4 := r100 % DaysPer4Years;
    var d := r4 / 365;
    assert n == DaysPer400Years * a + r400 && 0 <= r400 < DaysPer400Years;
    assert r400 == DaysPer100Years * b + r100 && 0 <= r100 < DaysPer100Years && 0 <= b <= 4;
    assert r100 == DaysPer4Years * c + r4 && 0 <= r4 < DaysPer4Years && 0 <= c <= 24;
    assert r4 == 365 * d + r4 % 365 && 0 <= r4 % 365 < 365 && 0 <= d <= 4;
    var year := 400 * a + 100 * b + 4 * c + d + 1;
    if b == 4 then
      LastDayOf400Years(a);
      year - 1
    else if d == 4 then
      LastDayOf4Years(a, b, c);
      year - 1
    else
      DaysBeforeYearInCycles(a, b, c, d);
      year
  }

  /** Every day lies in exactly one year. */
  lemma YearOfDayUnique(year: int, days: int)
    requires DaysBeforeYear(year) <= days < DaysBeforeYear(year) + DaysInYear(year)
    ensures YearOfDay(days) == year
  {
    var y := YearOfDay(days);
    if y < year {
      DaysBeforeNextYear(y);
      DaysBeforeYearMonotone(y + 1, year);
    } else if y > year {
      DaysBeforeNextYear(year);
      DaysBeforeYearMonotone(year + 1, y);
    }
  }

  /** Whole days from January 1 of its own year to day `days`: the `.days`
      of the difference between an instant and the start of its year. */
  function DayOffsetInYear(days: int): (offset: int)
    ensures 0 <= offset < DaysInYear(YearOfDay(days))
    ensures offset <= 364 || (offset == 365 && IsLeapYear(YearOfDay(days)))
  {
    days - DaysBeforeYear(YearOfDay(days))
  }
}
