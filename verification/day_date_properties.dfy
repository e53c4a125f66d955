/** What the operations of `DayDate` promise together: undoing a move, the day after a
    given day, the weekday's anchor and weekly period, the latest and earliest weekday on
    either side of a date, the unique nearest weekday, month and year arithmetic, the end
    of a month, and the comparisons as the calendar's order. */
module DayDateProperties {

  import opened Errors
  import opened JavaInt
  import opened Months
  import opened DateUtil
  import opened SpreadsheetSerial
  import opened SpreadsheetDates
  import opened DateIntervals
  import opened DayDates
  import Days

  // ----- Days -------------------------------------------------------------------------

  /** Moving back by the same number of days returns the date moved from. */
  lemma PlusDaysUndo(d: SpreadsheetDate, days: int)
    requires d.Valid() && PlusDays(d, days).Success?
    ensures PlusDays(PlusDays(d, days).value, -days) == Success(d)
  {
    var e := PlusDays(d, days).value;
    assert e.ordinalDay + -days == d.ordinalDay;
    ValidDateIsDecoded(d);
  }

  /** One day later, within a month, is the following day of the month. */
  lemma PlusOneDayInMonth(d: SpreadsheetDate)
    requires d.Valid() && d.day < LastDayOfMonth(d.month, d.year)
    ensures PlusDays(d, 1) == Success(SpreadsheetDate(d.ordinalDay + 1, d.day + 1, d.month, d.year))
  {
    PlusOneDay(d);
    NextSerialInMonth(d.ordinalDay, d.day, d.month, d.year);
  }

  /** One day after the last day of a month other than December is the first of the next
      month. */
  lemma PlusOneDayStartsMonth(d: SpreadsheetDate)
    requires d.Valid() && d.day == LastDayOfMonth(d.month, d.year) && d.month != DECEMBER
    ensures PlusDays(d, 1)
      == Success(SpreadsheetDate(d.ordinalDay + 1, 1, FromInt(d.month.ToInt() + 1).value, d.year))
  {
    PlusOneDay(d);
    NextSerialStartsMonth(d.ordinalDay, d.month, d.year);
  }

  /** One day after 31 December of a year before the last supported one is 1 January of
      the next year (31 December 9999 has the last serial, so no successor). */
  lemma PlusOneDayStartsYear(d: SpreadsheetDate)
    requires d.Valid() && d.day == 31 && d.month == DECEMBER && d.year < MAXIMUM_YEAR_SUPPORTED
    ensures PlusDays(d, 1) == Success(SpreadsheetDate(d.ordinalDay + 1, 1, JANUARY, d.year + 1))
  {
    PlusOneDay(d);
    NextSerialStartsYear(d.ordinalDay, d.year);
  }

  /** `daySince` is antisymmetric, and zero between valid dates only for the same date. */
  lemma DaySinceAntisymmetric(a: SpreadsheetDate, b: SpreadsheetDate)
    requires a.Valid() && b.Valid()
    ensures DaySince(a, b) == -DaySince(b, a)
    ensures DaySince(a, b) == 0 <==> a == b
  {
    EqualsIsIdentity(a, b);
  }


  // ----- Weekdays ---------------------------------------------------------------------

  /** The reference weekdays agree with the source's anchor: serial 0 is the Saturday
      `getDayOfWeekForOrdinalZero` names, and serial 2, 1 January 1900, is a Monday. */
  lemma WeekdayAnchors(d: SpreadsheetDate)
    ensures WeekdayOf(0) == d.DayOfWeekForOrdinalZero()
    ensures WeekdayOf(EARLIEST_DATE_ORDINAL) == Days.Day.MONDAY
  {
  }

  /** A serial a week later falls on the same weekday. */
  lemma WeekdayRepeatsWeekly(serial: int)
    ensures WeekdayOf(serial + 7) == WeekdayOf(serial)
  {
    assert (serial + 7 - 2) % 7 == (serial - 2) % 7;
  }

  /** Two dates a week apart have the same day of the week (wherever `getDayOfWeek`
      succeeds, which includes every valid date). */
  lemma WeekApartSameWeekday(d: SpreadsheetDate, later: SpreadsheetDate)
    requires d.ordinalDay >= -6 && later.ordinalDay == d.ordinalDay + 7
    ensures GetDayOfWeek(later) == GetDayOfWeek(d)
  {
    WeekdayRepeatsWeekly(d.ordinalDay);
    DayOfWeekIsWeekdayOf(d);
    DayOfWeekIsWeekdayOf(later);
  }

  lemma DayOfWeekIsWeekdayOf(d: SpreadsheetDate)
    requires d.ordinalDay >= -6
    ensures GetDayOfWeek(d) == Success(WeekdayOf(d.ordinalDay))
  {
    var r := GetDayOfWeek(d);
    assert r.Success? && r.value == WeekdayOf(d.ordinalDay);
  }

  /** `plusDays(7)` keeps the day of the week. */
  lemma WeekLaterSameWeekday(d: SpreadsheetDate)
    requires d.Valid() && PlusDays(d, 7).Success?
    ensures GetDayOfWeek(PlusDays(d, 7).value) == GetDayOfWeek(d)
  {
    WeekApartSameWeekday(d, PlusDays(d, 7).value);
  }

  /** The previous target weekday is the latest one strictly before the date. */
  lemma PreviousIsLatest(d: SpreadsheetDate, targetDayOfWeek: Days.Day)
    requires GetPreviousDayOfWeek(d, targetDayOfWeek).Success?
    ensures var p := GetPreviousDayOfWeek(d, targetDayOfWeek).value.ordinalDay;
      forall s :: p < s < d.ordinalDay ==> WeekdayOf(s) != targetDayOfWeek
  {
    var p := GetPreviousDayOfWeek(d, targetDayOfWeek).value.ordinalDay;
    forall s | p < s < d.ordinalDay
      ensures WeekdayOf(s) != targetDayOfWeek
    {
      WeekdaysWithinAWeekDiffer(p, s);
    }
  }

  /** The following target weekday is the earliest one strictly after the date. */
  lemma FollowingIsEarliest(d: SpreadsheetDate, targetDayOfWeek: Days.Day)
    requires GetFollowingDayOfWeek(d, targetDayOfWeek).Success?
    ensures var f := GetFollowingDayOfWeek(d, targetDayOfWeek).value.ordinalDay;
      forall s :: d.ordinalDay < s < f ==> WeekdayOf(s) != targetDayOfWeek
  {
    var f := GetFollowingDayOfWeek(d, targetDayOfWeek).value.ordinalDay;
    forall s | d.ordinalDay < s < f
      ensures WeekdayOf(s) != targetDayOfWeek
    {
      WeekdaysWithinAWeekDiffer(s, f);
    }
  }

  /** The nearest target weekday is the only one within 3 days; every other one is at
      least 4 days away. */
  lemma NearestIsUnique(d: SpreadsheetDate, targetDayOfWeek: Days.Day)
    requires GetNearestDayOfWeek(d, targetDayOfWeek).Success?
    ensures var n := GetNearestDayOfWeek(d, targetDayOfWeek).value.ordinalDay;
      forall s :: WeekdayOf(s) == targetDayOfWeek && s != n ==>
        s <= d.ordinalDay - 4 || d.ordinalDay + 4 <= s
  {
    var n := GetNearestDayOfWeek(d, targetDayOfWeek).value.ordinalDay;
    forall s | WeekdayOf(s) == targetDayOfWeek && s != n
      ensures s <= d.ordinalDay - 4 || d.ordinalDay + 4 <= s
    {
      if s < n {
        if n < s + 7 { WeekdaysWithinAWeekDiffer(s, n); }
      } else {
        if s < n + 7 { WeekdaysWithinAWeekDiffer(n, s); }
      }
    }
  }


  // ----- Months and years -------------------------------------------------------------

  /** A month ordinal fixes the year and the month. */
  lemma MonthOrdinalInjective(a: SpreadsheetDate, b: SpreadsheetDate)
    requires MonthOrdinal(a) == MonthOrdinal(b)
    ensures a.year == b.year && a.month == b.month
  {
    ToIntInjective(a.month, b.month);
  }

  /** Adding no months gives the same date. */
  lemma AddMonthsZero(d: SpreadsheetDate)
    requires d.Valid()
    ensures AddMonths(d, 0) == Success(d)
  {
    var e := AddMonths(d, 0).value;
    MonthOrdinalInjective(d, e);
  }

  /** Adding months twice moves to the same month as adding their sum at once, on the
      same day or an earlier one (the first step may already have clamped it). */
  lemma AddMonthsTwice(d: SpreadsheetDate, a: int, b: int)
    requires d.Valid() && AddMonths(d, a).Success?
    ensures var twice := AddMonths(AddMonths(d, a).value, b);
      var once := AddMonths(d, a + b);
      && (twice.Success? <==> once.Success?)
      && (twice.Success? ==>
            twice.value.year == once.value.year && twice.value.month == once.value.month
            && twice.value.day <= once.value.day)
  {
    var twice := AddMonths(AddMonths(d, a).value, b);
    var once := AddMonths(d, a + b);
    if twice.Success? {
      MonthOrdinalInjective(twice.value, once.value);
    }
  }

  /** When the first step did not clamp the day, adding the opposite number of months
      gives the original date back. */
  lemma AddMonthsUndo(d: SpreadsheetDate, months: int)
    requires d.Valid() && AddMonths(d, months).Success?
    requires AddMonths(d, months).value.day == d.day
    ensures AddMonths(AddMonths(d, months).value, -months) == Success(d)
  {
    AddMonthsTwice(d, months, -months);
    AddMonthsZero(d);
    var e := AddMonths(AddMonths(d, months).value, -months).value;
    MonthOrdinalInjective(d, e);
  }

  /** Only 29 February changes its day: it becomes 28 February in a common year. */
  lemma PlusYearsClampsOnlyLeapDay(d: SpreadsheetDate, years: int)
    requires d.Valid() && PlusYears(d, years).Success?
    ensures var e := PlusYears(d, years).value;
      e.day != d.day <==> d.month == FEBRUARY && d.day == 29 && !IsLeapYear(d.year + years)
    ensures var e := PlusYears(d, years).value;
      e.day != d.day ==> e.day == 28
  {
  }

  /** Unless the day was clamped, going back the same number of years gives the date back. */
  lemma PlusYearsUndo(d: SpreadsheetDate, years: int)
    requires d.Valid() && PlusYears(d, years).Success?
    requires PlusYears(d, years).value.day == d.day
    ensures PlusYears(PlusYears(d, years).value, -years) == Success(d)
  {
    var e := PlusYears(d, years).value;
    var f := PlusYears(e, -years);
    assert f.Success?;
    assert f.value.day == d.day by {
      assert d.day <= LastDayOfMonth(d.month, d.year);
    }
    TripleDeterminesDate(f.value, d);
  }

  /** The end of the month lies as many days ahead as the month has days left. */
  lemma EndOfMonthIsLast(d: SpreadsheetDate, base: SpreadsheetDate)
    requires d.Valid()
    ensures GetEndOfMonth(d, base).Success?
    ensures DaySince(GetEndOfMonth(d, base).value, d) == LastDayOfMonth(d.month, d.year) - d.day
  {
    var e := GetEndOfMonth(d, base).value;
    CalcSerialFromJanuaryFirst(d.day, d.month.ToInt(), d.year);
    CalcSerialFromJanuaryFirst(e.day, e.month.ToInt(), e.year);
  }

  /** The day after the last day of a month, when there is one, is the first of a month. */
  lemma DayAfterEndOfMonth(e: SpreadsheetDate)
    requires e.Valid() && e.day == LastDayOfMonth(e.month, e.year)
    requires e.ordinalDay < LATEST_DATE_ORDINAL
    ensures PlusDays(e, 1).Success? && PlusDays(e, 1).value.day == 1
  {
    if e.month == DECEMBER {
      assert e.year < MAXIMUM_YEAR_SUPPORTED by {
        SupportedRangeEnds();
      }
      PlusOneDayStartsYear(e);
    } else {
      PlusOneDayStartsMonth(e);
    }
  }


  // ----- Comparisons ------------------------------------------------------------------

  /** Calendar order: by year, then month, then day. */
  predicate CalendarBefore(a: SpreadsheetDate, b: SpreadsheetDate) {
    || a.year < b.year
    || (a.year == b.year && a.month.ToInt() < b.month.ToInt())
    || (a.year == b.year && a.month == b.month && a.day < b.day)
  }

  /** A date earlier in the calendar has a smaller serial. */
  lemma CalendarBeforeIsEarlier(a: SpreadsheetDate, b: SpreadsheetDate)
    requires a.Valid() && b.Valid() && CalendarBefore(a, b)
    ensures a.ordinalDay < b.ordinalDay
  {
    CalcSerialWithinYear(a.day, a.month, a.year);
    CalcSerialWithinYear(b.day, b.month, b.year);
    if a.year < b.year {
      if a.year + 1 < b.year {
        JanuaryFirstIncreasing(a.year + 1, b.year);
      }
    } else {
      CalcSerialFromJanuaryFirst(a.day, a.month.ToInt(), a.year);
      CalcSerialFromJanuaryFirst(b.day, b.month.ToInt(), b.year);
      if a.month.ToInt() < b.month.ToInt() {
        MonthLength(a.year, a.month);
        TableMonotone(a.year, a.month.ToInt() + 1, b.month.ToInt());
      }
    }
  }

  /** The comparisons on serials are the calendar's order of valid dates, and being on
      the same serial is being the same date. */
  lemma ComparisonsFollowTheCalendar(a: SpreadsheetDate, b: SpreadsheetDate)
    requires a.Valid() && b.Valid()
    ensures IsBefore(a, b) <==> CalendarBefore(a, b)
    ensures IsAfter(a, b) <==> CalendarBefore(b, a)
    ensures IsOn(a, b) <==> a == b
    ensures IsOnOrBefore(a, b) <==> CalendarBefore(a, b) || a == b
    ensures IsOnOrAfter(a, b) <==> CalendarBefore(b, a) || a == b
    ensures CompareTo(a, b) < 0 <==> CalendarBefore(a, b)
  {
    EqualsIsIdentity(a, b);
    if CalendarBefore(a, b) {
      CalendarBeforeIsEarlier(a, b);
    } else if CalendarBefore(b, a) {
      CalendarBeforeIsEarlier(b, a);
    } else {
      ToIntInjective(a.month, b.month);
    }
  }

  /** The order of the two bounds does not matter, and the closed range is the dates
      from the earlier bound to the later one. */
  lemma RangeBoundsInEitherOrder(d: SpreadsheetDate, d1: SpreadsheetDate, d2: SpreadsheetDate, dateInterval: DateInterval)
    ensures IsInRange(d, d1, d2, dateInterval) == IsInRange(d, d2, d1, dateInterval)
    ensures IsInRangeClosed(d, d1, d2) <==>
      (IsOnOrBefore(d1, d) && IsOnOrBefore(d, d2)) || (IsOnOrBefore(d2, d) && IsOnOrBefore(d, d1))
    ensures IsInRange(d, d1, d2, OPEN) <==>
      (IsBefore(d1, d) && IsBefore(d, d2)) || (IsBefore(d2, d) && IsBefore(d, d1))
  {
  }
}
