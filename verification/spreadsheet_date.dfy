/** SpreadsheetDate: an immutable date holding both its serial number (1-Jan-1900 = 2) and
    its day, month and year, with the two constructors that keep them in agreement. */
module SpreadsheetDates {

  import opened Errors
  import opened JavaInt
  import opened Months
  import Days
  import opened DateUtil
  import opened SpreadsheetSerial

  /** The four final fields of a SpreadsheetDate. */
  datatype SpreadsheetDate = SpreadsheetDate(ordinalDay: int, day: int, month: Month, year: int)
  {
    /** What every constructed date satisfies: serial, year and day in range, and the serial
        is the one `calcSerial` gives the day, month and year. */
    predicate Valid() {
      && EARLIEST_DATE_ORDINAL <= ordinalDay <= LATEST_DATE_ORDINAL
      && ValidTriple(day, month, year)
      && ordinalDay == CalcSerial(day, month.ToInt(), year)
    }

    /** `getMonth`: the month as its index. */
    function GetMonth(): (m: int)
      ensures 1 <= m <= 12 && FromInt(m) == Success(month)
    {
      FromIntToInt(month);
      month.ToInt()
    }

    /** `getDayOfWeekForOrdinalZero`: in this numbering serial 0 would be a Saturday. */
    function DayOfWeekForOrdinalZero(): Days.Day {
      Days.SATURDAY
    }

    /** `equals`: two dates are equal when they have the same serial. */
    predicate Equals(other: SpreadsheetDate) {
      other.ordinalDay == ordinalDay
    }

    /** `hashCode`: the serial. */
    function HashCode(): int {
      ordinalDay
    }
  }

  /** The triple constructor: checks the year, then the day against the month's length in
      that year, and only then computes the serial. */
  function Make(day: int, month: Month, year: int): (r: Result<SpreadsheetDate>)
    ensures !(MINIMUM_YEAR_SUPPORTED <= year <= MAXIMUM_YEAR_SUPPORTED) ==> r == Failure(YearOutOfRange)
    ensures MINIMUM_YEAR_SUPPORTED <= year <= MAXIMUM_YEAR_SUPPORTED && !(1 <= day <= LastDayOfMonth(month, year))
      ==> r == Failure(InvalidDay)
    ensures r.Success? <==> ValidTriple(day, month, year)
    ensures r.Success? ==> r.value.Valid() && r.value.day == day && r.value.month == month && r.value.year == year
  {
    if !(MINIMUM_YEAR_SUPPORTED <= year <= MAXIMUM_YEAR_SUPPORTED) then
      Failure(YearOutOfRange)
    else if !(1 <= day <= LastDayOfMonth(month, year)) then
      Failure(InvalidDay)
    else
      CalcSerialInRange(day, month, year);
      Success(SpreadsheetDate(CalcSerial(day, month.ToInt(), year), day, month, year))
  }

  /** The triple constructor taking the month as an index: an invalid index fails first. */
  function MakeFromIndex(day: int, month: int, year: int): (r: Result<SpreadsheetDate>)
    ensures !(1 <= month <= 12) ==> r == Failure(InvalidMonthIndex(month))
    ensures 1 <= month <= 12 ==> r == Make(day, FromInt(month).value, year)
    ensures r.Success? ==> r.value.GetMonth() == month
  {
    var m :- FromInt(month);
    Make(day, m, year)
  }

  /** The day, month and year of a serial, defined directly: the year is the last one whose
      1 January is not after the serial, the month the last one that starts on or before
      it, and the day what is left. This is the specification of the serial constructor. */
  function Decode(serial: int): (r: Result<SpreadsheetDate>)
    ensures r.Success? <==> EARLIEST_DATE_ORDINAL <= serial <= LATEST_DATE_ORDINAL
    ensures r.Success? ==> r.value.Valid() && r.value.ordinalDay == serial
    ensures r.Failure? ==> r.error == SerialOutOfRange
  {
    if !(EARLIEST_DATE_ORDINAL <= serial <= LATEST_DATE_ORDINAL) then
      Failure(SerialOutOfRange)
    else
      var year := YearOf(serial);
      var (month, day) := MonthAndDay(year, serial - JanuaryFirst(year));
      CalcSerialFromJanuaryFirst(day, month.ToInt(), year);
      Success(SpreadsheetDate(serial, day, month, year))
  }

  /** The serial constructor. It rejects a serial outside 2..2958465 before computing
      anything, then finds the year and within it the month and the day. */
  method FromSerial(serial: int) returns (r: Result<SpreadsheetDate>)
    ensures r == Decode(serial)
    ensures r.Success? <==> EARLIEST_DATE_ORDINAL <= serial <= LATEST_DATE_ORDINAL
    ensures r.Success? ==> r.value.Valid() && r.value.ordinalDay == serial
  {
    if !(EARLIEST_DATE_ORDINAL <= serial <= LATEST_DATE_ORDINAL) {
      return Failure(SerialOutOfRange);
    }
    var year := FindYear(serial);
    var month, day := FindMonthAndDay(serial, year);
    DecodeFound(serial, year, month, day);
    r := Success(SpreadsheetDate(serial, day, month, year));
  }

  /** The year and the month and day the two steps find are those of `Decode`. */
  lemma DecodeFound(serial: int, year: int, month: Month, day: int)
    requires EARLIEST_DATE_ORDINAL <= serial <= LATEST_DATE_ORDINAL && year == YearOf(serial)
    requires (month, day) == MonthAndDay(year, serial - JanuaryFirst(year))
    ensures Decode(serial) == Success(SpreadsheetDate(serial, day, month, year))
  {
  }

  /** The year step of the serial constructor: it brackets the year between an
      over-estimate (365-day years) and an under-estimate (the leap days of the
      over-estimated span removed), and searches forward from the under-estimate unless
      the two agree. */
  method FindYear(serial: int) returns (year: int)
    requires EARLIEST_DATE_ORDINAL <= serial <= LATEST_DATE_ORDINAL
    ensures year == YearOf(serial)
  {
    var days := serial - EARLIEST_DATE_ORDINAL;
    var overestimatedYYYY := MINIMUM_YEAR_SUPPORTED + Div(days, 365);
    var leaps := LeapYearCount(overestimatedYYYY);
    var nonleapdays := days - leaps;
    var underestimatedYYYY := MINIMUM_YEAR_SUPPORTED + Div(nonleapdays, 365);
    OverEstimate(serial, YearOf(serial));
    UnderEstimate(serial, YearOf(serial), overestimatedYYYY);

    if underestimatedYYYY == overestimatedYYYY {
      year := underestimatedYYYY;
    } else {
      year := SearchYear(serial, underestimatedYYYY);
    }
  }

  /** The forward search of the year step: the first year from `start` on whose 1 January
      is after the serial, less one. */
  method SearchYear(serial: int, start: int) returns (year: int)
    requires EARLIEST_DATE_ORDINAL <= serial <= LATEST_DATE_ORDINAL
    requires MINIMUM_YEAR_SUPPORTED <= start <= YearOf(serial)
    ensures year == YearOf(serial)
  {
    ghost var target := YearOf(serial);
    var underestimatedYYYY := start;
    var ss1 := CalcSerial(1, 1, underestimatedYYYY);
    while ss1 <= serial
      invariant MINIMUM_YEAR_SUPPORTED <= underestimatedYYYY <= target + 1
      invariant ss1 == JanuaryFirst(underestimatedYYYY)
      decreases target + 1 - underestimatedYYYY
    {
      JanuaryFirstOrder(underestimatedYYYY, target, serial);
      underestimatedYYYY := underestimatedYYYY + 1;
      ss1 := CalcSerial(1, 1, underestimatedYYYY);
    }
    JanuaryFirstOrder(underestimatedYYYY, target, serial);
    year := underestimatedYYYY - 1;
  }

  /** The month step of the serial constructor: it scans the year's table for the first
      month ending on or after the serial; the day is what is left. */
  method FindMonthAndDay(serial: int, year: int) returns (month: Month, day: int)
    requires 0 <= serial - JanuaryFirst(year) < DaysToEndOfPrecedingMonth(year, 13)
    ensures (month, day) == MonthAndDay(year, serial - JanuaryFirst(year))
  {
    var ss2 := CalcSerial(1, 1, year);

    var mm := 1;
    var sss := ss2 + DaysToEndOfPrecedingMonth(year, mm) - 1;
    while sss < serial
      invariant 1 <= mm <= 13
      invariant sss == ss2 + DaysToEndOfPrecedingMonth(year, mm) - 1
      invariant DaysToEndOfPrecedingMonth(year, mm - 1) <= serial - ss2
      decreases 13 - mm
    {
      mm := mm + 1;
      sss := ss2 + DaysToEndOfPrecedingMonth(year, mm) - 1;
    }
    month := FromInt(mm - 1).value;

    day := serial - ss2 - DaysToEndOfPrecedingMonth(year, month.ToInt()) + 1;
    MonthLength(year, month);
    MonthAndDayUnique(year, serial - ss2, month, day);
  }

  /** The over-estimate of the year step (every year taken as 365 days) is never below
      the serial's year. */
  lemma OverEstimate(serial: int, year: int)
    requires EARLIEST_DATE_ORDINAL <= serial <= LATEST_DATE_ORDINAL
    requires year == YearOf(serial)
    ensures year <= MINIMUM_YEAR_SUPPORTED + Div(serial - EARLIEST_DATE_ORDINAL, 365)
  {
    JanuaryFirstFormula(year);
    LeapYearCountBounds(year - 1);
    YearsAtLeast(serial - EARLIEST_DATE_ORDINAL, year - MINIMUM_YEAR_SUPPORTED);
  }

  /** The under-estimate of the year step (the leap days up to the over-estimate removed
      first) is a supported year and never above the serial's year. */
  lemma UnderEstimate(serial: int, year: int, over: int)
    requires EARLIEST_DATE_ORDINAL <= serial <= LATEST_DATE_ORDINAL
    requires year == YearOf(serial)
    requires over == MINIMUM_YEAR_SUPPORTED + Div(serial - EARLIEST_DATE_ORDINAL, 365)
    ensures var under := MINIMUM_YEAR_SUPPORTED
      + Div(serial - EARLIEST_DATE_ORDINAL - LeapYearCount(over), 365);
      MINIMUM_YEAR_SUPPORTED <= under <= year
  {
    OverEstimate(serial, year);
    JanuaryFirstFormula(year + 1);
    LeapYearCountBounds(over);
    LeapYearCountMonotone(year, over);
    YearsAtLeast(serial - EARLIEST_DATE_ORDINAL, 0);
    YearsAtMost(serial - EARLIEST_DATE_ORDINAL - LeapYearCount(over), year - MINIMUM_YEAR_SUPPORTED);
  }

  // The estimates' arithmetic: whole 365-day years in a count of days.

  lemma YearsAtLeast(days: int, k: int)
    requires 0 <= k && k * 365 <= days
    ensures k <= Div(days, 365) <= days
  {
  }

  lemma YearsAtMost(days: int, k: int)
    requires 0 <= days < k * 365 + 365
    ensures 0 <= Div(days, 365) <= k
  {
  }

  /** The serial of a valid day, month and year is in range, and falls in that year. */
  lemma SerialYear(day: int, month: Month, year: int)
    requires ValidTriple(day, month, year)
    ensures var serial := CalcSerial(day, month.ToInt(), year);
      EARLIEST_DATE_ORDINAL <= serial <= LATEST_DATE_ORDINAL && YearOf(serial) == year
  {
    var serial := CalcSerial(day, month.ToInt(), year);
    CalcSerialWithinYear(day, month, year);
    CalcSerialInRange(day, month, year);
    YearUnique(YearOf(serial), year, serial);
  }

  /** Encoding a valid day, month and year and decoding the serial gives them back. */
  lemma DecodeCalcSerial(serial: int, day: int, month: Month, year: int)
    requires ValidTriple(day, month, year) && serial == CalcSerial(day, month.ToInt(), year)
    ensures Decode(serial) == Success(SpreadsheetDate(serial, day, month, year))
  {
    SerialYear(day, month, year);
    CalcSerialFromJanuaryFirst(day, month.ToInt(), year);
    DecodeOf(serial, day, month, year);
  }

  /** Within a month, the serial after a date's decodes to the following day. */
  lemma NextSerialInMonth(serial: int, day: int, month: Month, year: int)
    requires ValidTriple(day, month, year) && serial == CalcSerial(day, month.ToInt(), year)
    requires day < LastDayOfMonth(month, year)
    ensures Decode(serial + 1) == Success(SpreadsheetDate(serial + 1, day + 1, month, year))
  {
    DecodeCalcSerial(serial + 1, day + 1, month, year);
  }

  /** The serial after the last day of a month other than December decodes to the first
      of the next month. */
  lemma NextSerialStartsMonth(serial: int, month: Month, year: int)
    requires MINIMUM_YEAR_SUPPORTED <= year <= MAXIMUM_YEAR_SUPPORTED && month != DECEMBER
    requires serial == CalcSerial(LastDayOfMonth(month, year), month.ToInt(), year)
    ensures Decode(serial + 1)
      == Success(SpreadsheetDate(serial + 1, 1, FromInt(month.ToInt() + 1).value, year))
  {
    NewMonthFollows(month, year);
    DecodeCalcSerial(serial + 1, 1, FromInt(month.ToInt() + 1).value, year);
  }

  /** The serial after 31 December of a year before the last supported one decodes to
      1 January of the next year. */
  lemma NextSerialStartsYear(serial: int, year: int)
    requires MINIMUM_YEAR_SUPPORTED <= year < MAXIMUM_YEAR_SUPPORTED
    requires serial == CalcSerial(31, 12, year)
    ensures Decode(serial + 1) == Success(SpreadsheetDate(serial + 1, 1, JANUARY, year + 1))
  {
    NewYearFollows(year);
    DecodeCalcSerial(serial + 1, 1, JANUARY, year + 1);
  }

  /** A serial decodes to the day and month that land on it within its year. */
  lemma DecodeOf(serial: int, day: int, month: Month, year: int)
    requires EARLIEST_DATE_ORDINAL <= serial <= LATEST_DATE_ORDINAL && YearOf(serial) == year
    requires 1 <= day <= LastDayOfMonth(month, year)
    requires serial - JanuaryFirst(year) == DaysToEndOfPrecedingMonth(year, month.ToInt()) + day - 1
    ensures Decode(serial) == Success(SpreadsheetDate(serial, day, month, year))
  {
    MonthAndDayUnique(year, serial - JanuaryFirst(year), month, day);
  }

  /** A valid date is what decoding its serial gives. */
  lemma ValidDateIsDecoded(d: SpreadsheetDate)
    requires d.Valid()
    ensures Decode(d.ordinalDay) == Success(d)
  {
    DecodeCalcSerial(d.ordinalDay, d.day, d.month, d.year);
  }

  /** Round trip one way: a date built from a triple decodes from its serial unchanged. */
  lemma MakeThenDecode(day: int, month: Month, year: int)
    requires Make(day, month, year).Success?
    ensures Decode(Make(day, month, year).value.ordinalDay) == Make(day, month, year)
  {
    ValidDateIsDecoded(Make(day, month, year).value);
  }

  /** Round trip the other way: a decoded date is rebuilt from its triple unchanged. */
  lemma DecodeThenMake(serial: int)
    requires EARLIEST_DATE_ORDINAL <= serial <= LATEST_DATE_ORDINAL
    ensures var d := Decode(serial).value;
      Make(d.day, d.month, d.year) == Success(d)
  {
  }

  /** The serial determines the date: `equals` on valid dates is identity, and equal dates
      have equal hash codes. */
  lemma EqualsIsIdentity(a: SpreadsheetDate, b: SpreadsheetDate)
    requires a.Valid() && b.Valid()
    ensures a.Equals(b) <==> a == b
    ensures a.Equals(b) ==> a.HashCode() == b.HashCode()
  {
    if a.Equals(b) {
      ValidDateIsDecoded(a);
      ValidDateIsDecoded(b);
    }
  }

  /** The day, month and year determine a valid date. */
  lemma TripleDeterminesDate(a: SpreadsheetDate, b: SpreadsheetDate)
    requires a.Valid() && b.Valid()
    requires a.day == b.day && a.month == b.month && a.year == b.year
    ensures a == b
  {
  }
}
