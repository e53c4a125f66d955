/** The operations the abstract class `DayDate` defines once for all its implementations,
    applied to the one implementation the factory hands out, `SpreadsheetDate`: day, month
    and year arithmetic, weekday navigation, the difference of two dates and the
    comparisons. Every date an operation returns comes from one of the two constructors,
    `Decode` (the serial one) or `Make` (the day, month and year one). */
module DayDates {

  import opened Errors
  import opened JavaInt
  import opened Months
  import opened DateUtil
  import opened SpreadsheetSerial
  import opened SpreadsheetDates
  import opened DateIntervals
  import Days

  // ----- Days -------------------------------------------------------------------------

  /** `daySince`: how many days this date lies after `other` (negative when before). */
  function DaySince(d: SpreadsheetDate, other: SpreadsheetDate): int {
    d.ordinalDay - other.ordinalDay
  }

  /** `plusDays`: the date `days` later (earlier when negative), built from its serial. */
  function PlusDays(d: SpreadsheetDate, days: int): (r: Result<SpreadsheetDate>)
    ensures r.Success? <==> EARLIEST_DATE_ORDINAL <= d.ordinalDay + days <= LATEST_DATE_ORDINAL
    ensures r.Success? ==>
      && r.value.Valid()
      && DaySince(r.value, d) == days
    ensures r.Failure? ==> r.error == SerialOutOfRange
  {
    Decode(d.ordinalDay + days)
  }

  /** One day later is the date of the next serial. */
  lemma PlusOneDay(d: SpreadsheetDate)
    ensures PlusDays(d, 1) == Decode(d.ordinalDay + 1)
  {
  }

  // ----- Weekdays ---------------------------------------------------------------------

  /** The weekday of a serial, counted independently of the source's arithmetic: serial 2,
      1 January 1900, was a Monday, and the weekdays follow in calendar order. */
  function WeekdayOf(serial: int): Days.Day {
    match (serial - 2) % 7
    case 0 => Days.Day.MONDAY
    case 1 => Days.Day.TUESDAY
    case 2 => Days.Day.WEDNESDAY
    case 3 => Days.Day.THURSDAY
    case 4 => Days.Day.FRIDAY
    case 5 => Days.Day.SATURDAY
    case _ => Days.Day.SUNDAY
  }

  /** The Calendar index of that weekday: Sunday, the last of `values()`, has index 1. */
  lemma WeekdayIndex(serial: int)
    ensures WeekdayOf(serial).ToInt() == (serial + 6) % 7 + 1
  {
    var p := (serial - 2) % 7;
    assert (serial + 6) % 7 == (p + 1) % 7 by {
      assert serial + 6 == (serial - 2) / 7 * 7 + p + 8;
    }
  }

  /** Moving from a serial by the difference of the weekdays' indices, plus whole weeks,
      lands on the target weekday. */
  lemma LandsOn(serial: int, from: Days.Day, target: Days.Day, weeks: int, landing: int)
    requires from == WeekdayOf(serial)
    requires landing == serial + (target.ToInt() - from.ToInt()) + 7 * weeks
    ensures WeekdayOf(landing) == target
  {
    WeekdayIndex(serial);
    WeekdayIndex(landing);
    var q := (serial + 6) / 7;
    assert landing + 6 == (q + weeks) * 7 + (target.ToInt() - 1);
    Days.ToIntInjective(WeekdayOf(landing), target);
  }

  /** Two serials less than a week apart fall on different weekdays. */
  lemma WeekdaysWithinAWeekDiffer(s: int, t: int)
    requires s < t < s + 7
    ensures WeekdayOf(s) != WeekdayOf(t)
  {
    WeekdayIndex(s);
    WeekdayIndex(t);
    var q, q' := (s + 6) / 7, (t + 6) / 7;
    assert s + 6 == q * 7 + (s + 6) % 7 && t + 6 == q' * 7 + (t + 6) % 7;
  }

  /** A move to `landing`, the only serial of its weekday in a window of at most seven,
      fails only when no serial of that weekday in the window is in the supported range. */
  lemma OnlyLandingInWindow(r: Result<SpreadsheetDate>, landing: int, lo: int, hi: int)
    requires lo <= landing <= hi < lo + 7
    requires r.Success? <==> EARLIEST_DATE_ORDINAL <= landing <= LATEST_DATE_ORDINAL
    ensures r.Failure? ==>
      forall s :: lo <= s <= hi && WeekdayOf(s) == WeekdayOf(landing) ==>
        s < EARLIEST_DATE_ORDINAL || s > LATEST_DATE_ORDINAL
  {
    forall s | lo <= s <= hi && s != landing
      ensures WeekdayOf(s) != WeekdayOf(landing)
    {
      if s < landing {
        WeekdaysWithinAWeekDiffer(s, landing);
      } else {
        WeekdaysWithinAWeekDiffer(landing, s);
      }
    }
  }

  /** `getDayOfWeek`: the weekday of the serial, from the weekday of serial 0 (a
      Saturday) and Java's remainder; `Day.fromInt` rejects the index a negative
      remainder gives. */
  function GetDayOfWeek(d: SpreadsheetDate): (r: Result<Days.Day>)
    ensures r.Success? <==> d.ordinalDay >= -6 || (d.ordinalDay + 6) % 7 == 0
    ensures r.Success? ==> r.value == WeekdayOf(d.ordinalDay)
    ensures r.Failure? ==> r.error.InvalidDayIndex?
  {
    var startingDay := d.DayOfWeekForOrdinalZero();
    var startingOffset := startingDay.ToInt() - Days.Day.SUNDAY.ToInt();
    var ordinalDayOfWeek := Rem(d.ordinalDay + startingOffset, 7);
    WeekdayIndex(d.ordinalDay);
    Days.FromIntToInt(WeekdayOf(d.ordinalDay));
    Days.FromInt(ordinalDayOfWeek + Days.Day.SUNDAY.ToInt())
  }

  /** `getPreviousDayOfWeek`: back between 1 and 7 days to the target weekday. */
  function GetPreviousDayOfWeek(d: SpreadsheetDate, targetDayOfWeek: Days.Day): (r: Result<SpreadsheetDate>)
    ensures r.Success? ==>
      && r.value.Valid()
      && d.ordinalDay - 7 <= r.value.ordinalDay < d.ordinalDay
      && WeekdayOf(r.value.ordinalDay) == targetDayOfWeek
    ensures EARLIEST_DATE_ORDINAL + 7 <= d.ordinalDay <= LATEST_DATE_ORDINAL ==> r.Success?
    ensures EARLIEST_DATE_ORDINAL <= d.ordinalDay <= LATEST_DATE_ORDINAL && r.Failure? ==>
      forall s :: d.ordinalDay - 7 <= s < d.ordinalDay && WeekdayOf(s) == targetDayOfWeek ==>
        s < EARLIEST_DATE_ORDINAL
  {
    var dayOfWeek :- GetDayOfWeek(d);
    var offsetToTarget := targetDayOfWeek.ToInt() - dayOfWeek.ToInt();
    var offsetToTarget := if offsetToTarget >= 0 then offsetToTarget - 7 else offsetToTarget;
    var r := PlusDays(d, offsetToTarget);
    if r.Success? then
      LandsOn(d.ordinalDay, dayOfWeek, targetDayOfWeek,
        if targetDayOfWeek.ToInt() >= dayOfWeek.ToInt() then -1 else 0, r.value.ordinalDay);
      r
    else
      var landing := d.ordinalDay + offsetToTarget;
      LandsOn(d.ordinalDay, dayOfWeek, targetDayOfWeek,
        if targetDayOfWeek.ToInt() >= dayOfWeek.ToInt() then -1 else 0, landing);
      OnlyLandingInWindow(r, landing, d.ordinalDay - 7, d.ordinalDay - 1);
      r
  }

  /** `getFollowingDayOfWeek`: forward between 1 and 7 days to the target weekday. */
  function GetFollowingDayOfWeek(d: SpreadsheetDate, targetDayOfWeek: Days.Day): (r: Result<SpreadsheetDate>)
    ensures r.Success? ==>
      && r.value.Valid()
      && d.ordinalDay < r.value.ordinalDay <= d.ordinalDay + 7
      && WeekdayOf(r.value.ordinalDay) == targetDayOfWeek
    ensures EARLIEST_DATE_ORDINAL <= d.ordinalDay <= LATEST_DATE_ORDINAL - 7 ==> r.Success?
    ensures EARLIEST_DATE_ORDINAL <= d.ordinalDay <= LATEST_DATE_ORDINAL && r.Failure? ==>
      forall s :: d.ordinalDay < s <= d.ordinalDay + 7 && WeekdayOf(s) == targetDayOfWeek ==>
        s > LATEST_DATE_ORDINAL
  {
    var dayOfWeek :- GetDayOfWeek(d);
    var offsetToTarget := targetDayOfWeek.ToInt() - dayOfWeek.ToInt();
    var offsetToTarget := if offsetToTarget <= 0 then offsetToTarget + 7 else offsetToTarget;
    var r := PlusDays(d, offsetToTarget);
    if r.Success? then
      LandsOn(d.ordinalDay, dayOfWeek, targetDayOfWeek,
        if targetDayOfWeek.ToInt() <= dayOfWeek.ToInt() then 1 else 0, r.value.ordinalDay);
      r
    else
      var landing := d.ordinalDay + offsetToTarget;
      LandsOn(d.ordinalDay, dayOfWeek, targetDayOfWeek,
        if targetDayOfWeek.ToInt() <= dayOfWeek.ToInt() then 1 else 0, landing);
      OnlyLandingInWindow(r, landing, d.ordinalDay + 1, d.ordinalDay + 7);
      r
  }

  /** `getNearestDayOfWeek`: the forward offset (0 to 6) when it is at most 3, and the
      backward one otherwise, so the result is at most 3 days away either way. */
  function GetNearestDayOfWeek(d: SpreadsheetDate, targetDayOfWeek: Days.Day): (r: Result<SpreadsheetDate>)
    ensures r.Success? ==>
      && r.value.Valid()
      && d.ordinalDay - 3 <= r.value.ordinalDay <= d.ordinalDay + 3
      && WeekdayOf(r.value.ordinalDay) == targetDayOfWeek
    ensures EARLIEST_DATE_ORDINAL + 3 <= d.ordinalDay <= LATEST_DATE_ORDINAL - 3 ==> r.Success?
    ensures EARLIEST_DATE_ORDINAL <= d.ordinalDay <= LATEST_DATE_ORDINAL && r.Failure? ==>
      forall s :: d.ordinalDay - 3 <= s <= d.ordinalDay + 3 && WeekdayOf(s) == targetDayOfWeek ==>
        s < EARLIEST_DATE_ORDINAL || s > LATEST_DATE_ORDINAL
  {
    var dayOfWeek :- GetDayOfWeek(d);
    var offsetToThisWeeksTarget := targetDayOfWeek.ToInt() - dayOfWeek.ToInt();
    var offsetToFutureTarget := Rem(offsetToThisWeeksTarget + 7, 7);
    var offsetToPreviousTarget := Rem(offsetToThisWeeksTarget - 7, 7);
    NearestOffsets(offsetToThisWeeksTarget);
    var offset := if offsetToFutureTarget > 3 then offsetToPreviousTarget else offsetToFutureTarget;
    var weeks := if offsetToFutureTarget > 3 then -1 - Div(offsetToThisWeeksTarget - 7, 7)
                 else 1 - Div(offsetToThisWeeksTarget + 7, 7);
    var r := PlusDays(d, offset);
    if r.Success? then
      LandsOn(d.ordinalDay, dayOfWeek, targetDayOfWeek, weeks, r.value.ordinalDay);
      r
    else
      var landing := d.ordinalDay + offset;
      LandsOn(d.ordinalDay, dayOfWeek, targetDayOfWeek, weeks, landing);
      OnlyLandingInWindow(r, landing, d.ordinalDay - 3, d.ordinalDay + 3);
      r
  }

  /** The two candidate offsets of `getNearestDayOfWeek` for a difference of indices `x`:
      the forward one lies in 0..6, and when it exceeds 3 the backward one is a week less. */
  lemma NearestOffsets(x: int)
    requires -6 <= x <= 6
    ensures 0 <= Rem(x + 7, 7) <= 6
    ensures Rem(x + 7, 7) > 3 ==> Rem(x - 7, 7) == Rem(x + 7, 7) - 7
  {
  }

  // ----- Months and years -------------------------------------------------------------

  /** `correctLastDayOfMonth`: the day, pulled back to the month's last day when it is
      past it. */
  function CorrectLastDayOfMonth(day: int, month: Month, year: int): (r: int)
    ensures r <= LastDayOfMonth(month, year) && r <= day
    ensures r == day || r == LastDayOfMonth(month, year)
  {
    Min(day, LastDayOfMonth(month, year))
  }

  /** The months since January of year 0 up to the date's month. */
  function MonthOrdinal(d: SpreadsheetDate): int {
    12 * d.year + d.GetMonth() - 1
  }

  /** `addMonths`: month and year from Java's quotient and remainder of the month ordinal,
      the day clamped to the new month. A negative ordinal that is not a multiple of 12
      gives a month index below 1, which `Month.fromInt` rejects. */
  function AddMonths(d: SpreadsheetDate, months: int): (r: Result<SpreadsheetDate>)
    ensures r.Success? ==>
      && r.value.Valid()
      && MonthOrdinal(r.value) == MonthOrdinal(d) + months
      && r.value.day == Min(d.day, LastDayOfMonth(r.value.month, r.value.year))
    ensures 1 <= d.day ==> (r.Success? <==>
      12 * MINIMUM_YEAR_SUPPORTED <= MonthOrdinal(d) + months < 12 * (MAXIMUM_YEAR_SUPPORTED + 1))
    ensures var total := MonthOrdinal(d) + months;
      total < 0 && total % 12 != 0 ==> r == Failure(InvalidMonthIndex(Rem(total, 12) + 1))
    ensures var total := MonthOrdinal(d) + months;
      1 <= d.day && r.Failure? && !(total < 0 && total % 12 != 0) ==> r.error == YearOutOfRange
  {
    var thisMonthAsOrdinal := 12 * d.year + d.GetMonth() - 1;
    var resultMonthAsOrdinal := thisMonthAsOrdinal + months;
    var resultYear := Div(resultMonthAsOrdinal, 12);
    var resultMonth :- FromInt(Rem(resultMonthAsOrdinal, 12) + 1);
    var resultDay := CorrectLastDayOfMonth(d.day, resultMonth, resultYear);
    Make(resultDay, resultMonth, resultYear)
  }

  /** `plusYears`: the same month `years` later, the day clamped to the month. */
  function PlusYears(d: SpreadsheetDate, years: int): (r: Result<SpreadsheetDate>)
    ensures 1 <= d.day ==> (r.Success? <==>
      MINIMUM_YEAR_SUPPORTED <= d.year + years <= MAXIMUM_YEAR_SUPPORTED)
    ensures r.Success? ==>
      && r.value.Valid()
      && r.value.month == d.month
      && r.value.year == d.year + years
      && r.value.day == Min(d.day, LastDayOfMonth(d.month, d.year + years))
    ensures r.Failure? && 1 <= d.day ==> r.error == YearOutOfRange
  {
    var resultYear := d.year + years;
    var month := FromInt(d.GetMonth()).value;
    var resultDay := CorrectLastDayOfMonth(d.day, month, resultYear);
    Make(resultDay, month, resultYear)
  }

  /** `getEndOfMonth`: the last day of this date's month. The `base` argument of the
      source is not used by it. */
  function GetEndOfMonth(d: SpreadsheetDate, base: SpreadsheetDate): (r: Result<SpreadsheetDate>)
    ensures r.Success? <==> MINIMUM_YEAR_SUPPORTED <= d.year <= MAXIMUM_YEAR_SUPPORTED
    ensures r.Success? ==>
      && r.value.Valid()
      && r.value.month == d.month
      && r.value.year == d.year
      && r.value.day == LastDayOfMonth(d.month, d.year)
  {
    var month := FromInt(d.GetMonth()).value;
    Make(LastDayOfMonth(month, d.year), month, d.year)
  }

  // ----- Comparisons ------------------------------------------------------------------

  /** `compareTo`: the day difference. */
  function CompareTo(d: SpreadsheetDate, other: SpreadsheetDate): int {
    DaySince(d, other)
  }

  predicate IsOn(d: SpreadsheetDate, other: SpreadsheetDate) {
    d.ordinalDay == other.ordinalDay
  }

  predicate IsBefore(d: SpreadsheetDate, other: SpreadsheetDate) {
    d.ordinalDay < other.ordinalDay
  }

  predicate IsOnOrBefore(d: SpreadsheetDate, other: SpreadsheetDate) {
    d.ordinalDay <= other.ordinalDay
  }

  predicate IsAfter(d: SpreadsheetDate, other: SpreadsheetDate) {
    d.ordinalDay > other.ordinalDay
  }

  predicate IsOnOrAfter(d: SpreadsheetDate, other: SpreadsheetDate) {
    d.ordinalDay >= other.ordinalDay
  }

  /** `isInRange(d1, d2, interval)`: the interval between the smaller and the larger of
      the two serials, in either order, with the end points the policy includes. */
  predicate IsInRange(d: SpreadsheetDate, d1: SpreadsheetDate, d2: SpreadsheetDate, dateInterval: DateInterval) {
    var start := Min(d1.ordinalDay, d2.ordinalDay);
    var end := Max(d1.ordinalDay, d2.ordinalDay);
    dateInterval.IsIn(d.ordinalDay, start, end)
  }

  /** `isInRange(d1, d2)`: both end points included. */
  predicate IsInRangeClosed(d: SpreadsheetDate, d1: SpreadsheetDate, d2: SpreadsheetDate) {
    IsInRange(d, d1, d2, CLOSED)
  }

}
