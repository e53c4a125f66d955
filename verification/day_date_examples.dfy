/** The scenarios of DayDateTest as facts about concrete dates, with English month and
    weekday names, and a few more inputs of `Month.parse` and `Day.parse`. Dates are built with the triple constructor and passed in as `d`; where
    an operation ends in a conversion from a serial, the expected date is named through
    `MadeFromSerial`. */
module DayDateExamples {

  import opened Errors
  import opened JavaInt
  import opened JavaText
  import opened Months
  import Days
  import opened DateUtil
  import opened SpreadsheetSerial
  import opened SpreadsheetDates
  import opened DayDates
  import opened DayDateProperties

  // ----- English names --------------------------------------------------------------

  /** ASCII case folding, enough for English names. */
  function AsciiLower(c: char): char {
    if 'A' <= c <= 'Z' then (c as int - 'A' as int + 'a' as int) as char else c
  }

  function EnglishMonth(m: Month): string {
    match m
    case JANUARY => "January"
    case FEBRUARY => "February"
    case MARCH => "March"
    case APRIL => "April"
    case MAY => "May"
    case JUNE => "June"
    case JULY => "July"
    case AUGUST => "August"
    case SEPTEMBER => "September"
    case OCTOBER => "October"
    case NOVEMBER => "November"
    case DECEMBER => "December"
  }

  function EnglishMonthShort(m: Month): string {
    EnglishMonth(m)[..3]
  }

  function EnglishDay(d: Days.Day): string {
    match d
    case MONDAY => "Monday"
    case TUESDAY => "Tuesday"
    case WEDNESDAY => "Wednesday"
    case THURSDAY => "Thursday"
    case FRIDAY => "Friday"
    case SATURDAY => "Saturday"
    case SUNDAY => "Sunday"
  }

  function EnglishDayShort(d: Days.Day): string {
    EnglishDay(d)[..3]
  }

  const ENGLISH_MONTHS: NameTable<Month> := NameTable(EnglishMonth, EnglishMonthShort, AsciiLower)
  const ENGLISH_DAYS: NameTable<Days.Day> := NameTable(EnglishDay, EnglishDayShort, AsciiLower)

  // ----- DateUtil ---------------------------------------------------------------------

  /** 1900 is not a leap year and 2000 is; the leap years from 1900 through 1899, 1903,
      1904, 1999 and 2000 number 0, 0, 1, 24 and 25. */
  lemma LeapYearExamples()
    ensures !IsLeapYear(1900) && IsLeapYear(2000)
    ensures LeapYearCount(1899) == 0 && LeapYearCount(1903) == 0 && LeapYearCount(1904) == 1
    ensures LeapYearCount(1999) == 24 && LeapYearCount(2000) == 25
  {
  }

  // ----- Month and Day parsing -------------------------------------------------------

  /** "January" and "Jan" parse to January by name. */
  lemma MonthParseByName()
    ensures Months.Parse("January", ENGLISH_MONTHS) == Success(JANUARY)
    ensures Months.Parse("Jan", ENGLISH_MONTHS) == Success(JANUARY)
  {
    FirstMonthParse("January");
    FirstMonthParse("Jan");
  }

  /** "1" names no month and parses to January as an index. */
  lemma MonthParseByIndex()
    ensures Months.Parse("1", ENGLISH_MONTHS) == Success(JANUARY)
  {
    assert Trim("1") == "1" by {
      TrimUntrimmed("1");
    }
    assert ParseInt("1") == Some(1) by {
      assert DigitsValue("1") == 1 by {
        assert "1"[..0] == "";
      }
    }
    forall m: Month ensures !Months.Matches(m, "1", ENGLISH_MONTHS) {
      assert |EnglishMonth(m)| >= 3;
    }
  }

  /** A plus sign in front of the index is allowed: "+12" is December. */
  lemma MonthParsePlusSign()
    ensures Months.Parse("+12", ENGLISH_MONTHS) == Success(DECEMBER)
  {
    TrimUntrimmed("+12");
    SignedDecimals();
    NoMonthStartsWithSign("+12");
    var r := Months.Parse("+12", ENGLISH_MONTHS);
    Months.ToIntInjective(r.value, DECEMBER);
  }

  /** A minus sign makes a negative index, which is rejected with that index: "-1". */
  lemma MonthParseMinusSign()
    ensures Months.Parse("-1", ENGLISH_MONTHS) == Failure(InvalidMonthIndex(-1))
  {
    TrimUntrimmed("-1");
    SignedDecimals();
    NoMonthStartsWithSign("-1");
  }

  lemma SignedDecimals()
    ensures ParseInt("+12") == Some(12) && ParseInt("-1") == Some(-1)
  {
    assert DecimalString(12) == "12" && DecimalString(1) == "1";
    ParseIntOfSignedDecimal(12);
    ParseIntOfSignedDecimal(1);
    assert "+" + "12" == "+12" && "-" + "1" == "-1";
  }

  /** Every English month name starts with a capital letter, so a signed string names none. */
  lemma NoMonthStartsWithSign(s: string)
    requires |s| > 0 && (s[0] == '+' || s[0] == '-')
    ensures forall m: Month :: !Months.Matches(m, s, ENGLISH_MONTHS)
  {
    forall m: Month ensures !Months.Matches(m, s, ENGLISH_MONTHS) {
      assert 'A' <= EnglishMonth(m)[0] <= 'Z';
    }
  }

  /** Every spelling of January's names, in any mix of cases, parses to January, the first
      month: such a string has nothing to trim. */
  lemma FirstMonthParse(s: string)
    requires Months.Matches(JANUARY, s, ENGLISH_MONTHS)
    ensures Months.Parse(s, ENGLISH_MONTHS) == Success(JANUARY)
  {
    assert |s| == 3 || |s| == 7;
    assert !IsTrimmed(s[0]) by {
      assert s[0] == 'J' || AsciiLower(s[0]) == AsciiLower('J');
    }
    assert !IsTrimmed(s[|s| - 1]) by {
      if |s| == 3 {
        assert s[2] == 'n' || AsciiLower(s[2]) == AsciiLower('n');
      } else {
        assert s[6] == 'y' || AsciiLower(s[6]) == AsciiLower('y');
      }
    }
    TrimUntrimmed(s);
    var r := Months.Parse(s, ENGLISH_MONTHS);
    Months.ToIntInjective(r.value, JANUARY);
  }

  /** "Wednesday", "wednesday" and "Wed" all parse to Wednesday. */
  lemma DayParseExamples()
    ensures Days.Parse("Wednesday", ENGLISH_DAYS) == Success(Days.Day.WEDNESDAY)
    ensures Days.Parse("wednesday", ENGLISH_DAYS) == Success(Days.Day.WEDNESDAY)
    ensures Days.Parse("Wed", ENGLISH_DAYS) == Success(Days.Day.WEDNESDAY)
  {
    WednesdayParse("Wednesday");
    WednesdayParse("wednesday");
    WednesdayParse("Wed");
  }

  /** Every spelling of Wednesday's names, in any mix of cases, parses to Wednesday: such a
      string has nothing to trim and matches neither Monday nor Tuesday. */
  lemma WednesdayParse(s: string)
    requires Days.Matches(Days.Day.WEDNESDAY, s, ENGLISH_DAYS)
    ensures Days.Parse(s, ENGLISH_DAYS) == Success(Days.Day.WEDNESDAY)
  {
    WednesdaySpelling(s);
    TrimUntrimmed(s);
    var r := Days.Parse(s, ENGLISH_DAYS);
    assert !Days.Matches(Days.Day.MONDAY, s, ENGLISH_DAYS);
    assert !Days.Matches(Days.Day.TUESDAY, s, ENGLISH_DAYS);
    Days.ToIntInjective(r.value, Days.Day.WEDNESDAY);
  }

  /** A spelling of Wednesday's names is "wed" or "wednesday" up to case. */
  lemma WednesdaySpelling(s: string)
    requires Days.Matches(Days.Day.WEDNESDAY, s, ENGLISH_DAYS)
    ensures |s| == 3 || |s| == 9
    ensures AsciiLower(s[0]) == 'w' && !IsTrimmed(s[|s| - 1])
  {
    assert s[0] == 'W' || AsciiLower(s[0]) == AsciiLower('W');
    if |s| == 3 {
      assert s[2] == 'd' || AsciiLower(s[2]) == AsciiLower('d');
    } else {
      assert s[8] == 'y' || AsciiLower(s[8]) == AsciiLower('y');
    }
  }

  // ----- Adding months and years ------------------------------------------------------

  /** A valid date whose serial is that of a valid triple is the date the triple makes. */
  lemma MadeFromSerial(x: SpreadsheetDate, day: int, month: Month, year: int)
    requires x.Valid() && ValidTriple(day, month, year)
    requires x.ordinalDay == CalcSerial(day, month.ToInt(), year)
    ensures Make(day, month, year) == Success(x)
  {
    ValidDateIsDecoded(x);
    DecodeCalcSerial(x.ordinalDay, day, month, year);
  }

  /** `addMonths` lands on the triple whose month ordinal is `months` on and whose day is
      the clamped day. */
  lemma AddMonthsLandsOn(d: SpreadsheetDate, months: int, day: int, month: Month, year: int)
    requires d.Valid() && ValidTriple(day, month, year)
    requires MonthOrdinal(d) + months == 12 * year + month.ToInt() - 1
    requires day == Min(d.day, LastDayOfMonth(month, year))
    ensures AddMonths(d, months) == Make(day, month, year)
  {
    var r := AddMonths(d, months).value;
    MonthOrdinalInjective(r, Make(day, month, year).value);
    TripleDeterminesDate(r, Make(day, month, year).value);
  }

  /** 9 November 2001 plus two months is 9 January 2002. */
  lemma AddMonthsTo9Nov2001(d: SpreadsheetDate)
    requires Make(9, NOVEMBER, 2001) == Success(d)
    ensures AddMonths(d, 2) == Make(9, JANUARY, 2002)
  {
    AddMonthsLandsOn(d, 2, 9, JANUARY, 2002);
  }

  /** 5 October 2003 plus two months is 5 December 2003. */
  lemma AddMonthsTo5Oct2003(d: SpreadsheetDate)
    requires Make(5, OCTOBER, 2003) == Success(d)
    ensures AddMonths(d, 2) == Make(5, DECEMBER, 2003)
  {
    AddMonthsLandsOn(d, 2, 5, DECEMBER, 2003);
  }

  /** 1 January 2003 plus no months is itself. */
  lemma AddMonthsTo1Jan2003(d: SpreadsheetDate)
    requires Make(1, JANUARY, 2003) == Success(d)
    ensures AddMonths(d, 0) == Success(d)
  {
    AddMonthsZero(d);
  }

  /** From 31 May 2004 one month on is 30 June, two months on is 31 July, and one month on
      twice is 30 July: the clamp to June's 30 days is kept. */
  lemma AddMonthsFrom31May2004(d: SpreadsheetDate)
    requires Make(31, MAY, 2004) == Success(d)
    ensures AddMonths(d, 1) == Make(30, JUNE, 2004)
    ensures AddMonths(d, 2) == Make(31, JULY, 2004)
    ensures AddMonths(AddMonths(d, 1).value, 1) == Make(30, JULY, 2004)
  {
    AddMonthsLandsOn(d, 1, 30, JUNE, 2004);
    AddMonthsLandsOn(d, 2, 31, JULY, 2004);
    AddMonthsLandsOn(AddMonths(d, 1).value, 1, 30, JULY, 2004);
  }

  /** 29 February 2004 plus one year is on 28 February 2005. */
  lemma PlusYearsExample()
    ensures IsOn(PlusYears(Make(29, FEBRUARY, 2004).value, 1).value, Make(28, FEBRUARY, 2005).value)
  {
  }

  // ----- Day differences and weekdays -------------------------------------------------

  /** 25 April 2017 is five days after 20 April and five days before 30 April. */
  lemma DaySinceExamples()
    ensures DaySince(Make(25, APRIL, 2017).value, Make(20, APRIL, 2017).value) == 5
    ensures DaySince(Make(25, APRIL, 2017).value, Make(30, APRIL, 2017).value) == -5
  {
  }

  /** Two serials less than a week apart that fall on the same weekday are equal. */
  lemma SameWeekdayWithinAWeek(s: int, t: int)
    requires s - 7 < t < s + 7 && WeekdayOf(s) == WeekdayOf(t)
    ensures s == t
  {
    if s < t {
      WeekdaysWithinAWeekDiffer(s, t);
    } else if t < s {
      WeekdaysWithinAWeekDiffer(t, s);
    }
  }

  /** The previous target weekday is the serial in the week before that falls on it. */
  lemma PreviousIs(d: SpreadsheetDate, target: Days.Day, serial: int)
    requires d.Valid() && EARLIEST_DATE_ORDINAL + 7 <= d.ordinalDay
    requires d.ordinalDay - 7 <= serial < d.ordinalDay && WeekdayOf(serial) == target
    ensures GetPreviousDayOfWeek(d, target).Success?
    ensures GetPreviousDayOfWeek(d, target).value.ordinalDay == serial
  {
    SameWeekdayWithinAWeek(GetPreviousDayOfWeek(d, target).value.ordinalDay, serial);
  }

  /** The following target weekday is the serial in the week after that falls on it. */
  lemma FollowingIs(d: SpreadsheetDate, target: Days.Day, serial: int)
    requires d.Valid() && d.ordinalDay <= LATEST_DATE_ORDINAL - 7
    requires d.ordinalDay < serial <= d.ordinalDay + 7 && WeekdayOf(serial) == target
    ensures GetFollowingDayOfWeek(d, target).Success?
    ensures GetFollowingDayOfWeek(d, target).value.ordinalDay == serial
  {
    SameWeekdayWithinAWeek(GetFollowingDayOfWeek(d, target).value.ordinalDay, serial);
  }

  /** The nearest target weekday is the serial within three days that falls on it. */
  lemma NearestIs(d: SpreadsheetDate, target: Days.Day, serial: int)
    requires d.Valid() && EARLIEST_DATE_ORDINAL + 3 <= d.ordinalDay <= LATEST_DATE_ORDINAL - 3
    requires d.ordinalDay - 3 <= serial <= d.ordinalDay + 3 && WeekdayOf(serial) == target
    ensures GetNearestDayOfWeek(d, target).Success?
    ensures GetNearestDayOfWeek(d, target).value.ordinalDay == serial
  {
    SameWeekdayWithinAWeek(GetNearestDayOfWeek(d, target).value.ordinalDay, serial);
  }

  /** The Monday before Friday 9 November 2001 (serial 37204) is the 5th (serial 37200). */
  lemma MondayPreceding9Nov2001(d: SpreadsheetDate)
    requires Make(9, NOVEMBER, 2001) == Success(d)
    ensures GetPreviousDayOfWeek(d, Days.Day.MONDAY) == Make(5, NOVEMBER, 2001)
  {
    PreviousIs(d, Days.Day.MONDAY, 37200);
    MadeFromSerial(GetPreviousDayOfWeek(d, Days.Day.MONDAY).value, 5, NOVEMBER, 2001);
  }

  /** The Monday after Friday 9 November 2001 is the 12th (serial 37207). */
  lemma MondayFollowing9Nov2001(d: SpreadsheetDate)
    requires Make(9, NOVEMBER, 2001) == Success(d)
    ensures GetFollowingDayOfWeek(d, Days.Day.MONDAY) == Make(12, NOVEMBER, 2001)
  {
    FollowingIs(d, Days.Day.MONDAY, 37207);
    MadeFromSerial(GetFollowingDayOfWeek(d, Days.Day.MONDAY).value, 12, NOVEMBER, 2001);
  }

  /** The Monday nearest Friday 9 November 2001 is the 12th. */
  lemma MondayNearest9Nov2001(d: SpreadsheetDate)
    requires Make(9, NOVEMBER, 2001) == Success(d)
    ensures GetNearestDayOfWeek(d, Days.Day.MONDAY) == Make(12, NOVEMBER, 2001)
  {
    NearestIs(d, Days.Day.MONDAY, 37207);
    MadeFromSerial(GetNearestDayOfWeek(d, Days.Day.MONDAY).value, 12, NOVEMBER, 2001);
  }

  /** The Monday nearest Thursday 22 January 1970 (serial 25590) is the 19th (25587). */
  lemma MondayNearest22Jan1970(d: SpreadsheetDate)
    requires Make(22, JANUARY, 1970) == Success(d)
    ensures GetNearestDayOfWeek(d, Days.Day.MONDAY) == Make(19, JANUARY, 1970)
  {
    NearestIs(d, Days.Day.MONDAY, 25587);
    MadeFromSerial(GetNearestDayOfWeek(d, Days.Day.MONDAY).value, 19, JANUARY, 1970);
  }

  /** The Sunday nearest Wednesday 3 May 2017 (serial 42858) is 30 April 2017 (42855). */
  lemma SundayNearest3May2017(d: SpreadsheetDate)
    requires Make(3, MAY, 2017) == Success(d)
    ensures GetNearestDayOfWeek(d, Days.Day.SUNDAY) == Make(30, APRIL, 2017)
  {
    NearestIs(d, Days.Day.SUNDAY, 42855);
    MadeFromSerial(GetNearestDayOfWeek(d, Days.Day.SUNDAY).value, 30, APRIL, 2017);
  }
}
