# jcommon day dates in Dafny

A model of the date core of jcommon (`org.jfree.date` and `org.jfree.daydate`):

- `SpreadsheetDate`: an immutable date that keeps its serial number (1 January 1900 = 2,
  31 December 9999 = 2958465) next to its day, month and year. It has two constructors,
  one from a day, month and year and one from a serial.
- The arithmetic `DayDate` defines for every date: adding days, months and years; the
  previous, following and nearest weekday; the end of the month; the difference of two
  dates; and the comparisons and range tests.
- The `Month`, `Day` and `DateInterval` enums and the `DateUtil` calendar functions.

Dates are values. `SpreadsheetDate` becomes a datatype with a `Valid()` predicate: the
serial is in range, the triple is a real date, and the serial is `calcSerial` of the
triple. Every operation that can throw `IllegalArgumentException` returns a `Result`
instead, with one `Error` variant per message. Java's truncating `/` and `%` appear as
`JavaInt.Div` and `JavaInt.Rem` wherever the code divides a value that can be negative.

The serial constructor works by stepping two loops (a forward search for the year, a scan
of the month table). It is the method `SpreadsheetDates.FromSerial`, proved equal to the
function `SpreadsheetDates.Decode`. That function defines the date of a serial directly:
the last year whose 1 January is not after the serial, then the month whose table entries
bracket the day of the year. The `DayDate` operations are functions and use `Decode`
wherever the source calls the serial constructor.

Files, one module each:

| file | module | models |
|---|---|---|
| errors.dfy | Errors | the exceptions, `Result` and `Option` |
| java_int.dfy | JavaInt | Java `int` division, remainder, `Math.min`, `Math.max` |
| java_text.dfy | JavaText | `String.trim`, `equalsIgnoreCase`, `Integer.parseInt`, the locale name table |
| month.dfy | Months | `Month` |
| day.dfy | Days | `Day` |
| date_interval.dfy | DateIntervals | `DateInterval` |
| date_util.dfy | DateUtil | `DateUtil` |
| serial_numbers.dfy | SpreadsheetSerial | the constants, the tables and `calcSerial` of `SpreadsheetDate` |
| spreadsheet_date.dfy | SpreadsheetDates | `SpreadsheetDate`: fields, constructors, `equals`, `hashCode` |
| day_date.dfy | DayDates | the operations of `DayDate` |
| day_date_properties.dfy | DayDateProperties | what those operations promise together |
| day_date_examples.dfy | DayDateExamples | the scenarios of `DayDateTest`, with English names |

## Model

| member | source | states |
|---|---|---|
| JavaInt.Div | src/main/java/org/jfree/date/DayDate.java:124 | Java's quotient by a positive divisor rounds toward zero: for a non-negative dividend `q*b <= a < q*b + b`, for a negative one `a <= q*b < a + b` with `q <= 0` |
| JavaInt.Rem | src/main/java/org/jfree/date/DayDate.java:125 | `a == Div(a, b)*b + r`, and the remainder has the sign of the dividend and magnitude below the divisor |
| JavaInt.Min | src/main/java/org/jfree/date/DayDate.java:144-146 | the result is at most both arguments and equal to one of them |
| JavaInt.Max | src/main/java/org/jfree/date/DayDate.java:339 | the result is at least both arguments and equal to one of them |
| JavaText.Trim | src/main/java/org/jfree/daydate/Month.java:41 | `trim` gives a slice of its input with only characters up to the space before and after it, and the slice starts and ends with a character above the space or is empty |
| JavaText.TrimUntrimmed | src/main/java/org/jfree/daydate/Month.java:41 | a string with nothing to trim at either end is its own trim |
| JavaText.EqualsIgnoreCase | src/main/java/org/jfree/daydate/Month.java:56 | definition: the same length, and at each position the same character or the same character after case folding |
| JavaText.ParseInt | src/main/java/org/jfree/daydate/Month.java:48 | a parsed value fits in a Java `int`; only an optional sign followed by at least one digit and nothing but digits parses, and a negative value needs the minus sign |
| JavaText.ParseIntOfDecimal | src/main/java/org/jfree/daydate/Month.java:48 | `parseInt` reads back every non-negative `int` written in decimal, and rejects a decimal above the largest `int` |
| JavaText.DigitsValueLeadingZero | src/main/java/org/jfree/daydate/Month.java:48 | a leading zero does not change the value of a string of digits |
| JavaText.ParseIntOfSignedDecimal | src/main/java/org/jfree/daydate/Month.java:48 | `-` before a decimal gives its negation down to the smallest `int` and fails below it; `+` and a leading zero keep the value up to the largest `int` and fail above it |
| DateIntervals.DateInterval.IsIn | src/main/java/org/jfree/daydate/DateInterval.java:7-30 | definition: OPEN excludes both ends, CLOSED_LEFT includes only the start, CLOSED_RIGHT only the end, CLOSED both |
| DateIntervals.IntervalNesting | src/main/java/org/jfree/daydate/DateInterval.java:7-30 | OPEN lies inside both half-closed policies, and each of those inside CLOSED |
| DateIntervals.IntervalEndPoints | src/main/java/org/jfree/daydate/DateInterval.java:7-30 | on a proper range every policy is the open interval plus exactly the end points it closes |
| DateIntervals.DegenerateInterval | src/main/java/org/jfree/daydate/DateInterval.java:7-30 | on a range of one day only CLOSED holds, and only for that day |
| DateUtil.IsLeapYear | src/main/java/org/jfree/daydate/DateUtil.java:16-21 | definition: divisible by 4, and not by 100 unless by 400 |
| DateUtil.LastDayOfMonth | src/main/java/org/jfree/daydate/DateUtil.java:31-37 | the last day is 28 to 31; it is 29 exactly for February of a leap year; other months keep their table length |
| DateUtil.LeapYearCount | src/main/java/org/jfree/daydate/DateUtil.java:48-55 | definition: the closed form with Java division; `DateUtil.LeapYearCountIsCount` proves it counts the leap years |
| DateUtil.LeapYearCountStep | src/main/java/org/jfree/daydate/DateUtil.java:48-55 | the closed form grows by one from a year to the next exactly when the later year is a leap year |
| DateUtil.LeapYearCountIsCount | src/main/java/org/jfree/daydate/DateUtil.java:39-55 | the closed form equals the size of the set of leap years in 1900..y, for every y from 1899 on |
| DateUtil.LeapYearCountMonotone | src/main/java/org/jfree/daydate/DateUtil.java:48-55 | between two years the count never shrinks and grows by at most the number of years between them |
| DateUtil.LeapYearCountBounds | src/main/java/org/jfree/daydate/DateUtil.java:48-55 | from 1899 on the count is at least 0 and at most the years since 1900 |
| Months.Month.ToInt | src/main/java/org/jfree/daydate/Month.java:71-73 | the index is in 1..12 |
| Months.LastDayOfMonthTable | src/main/java/org/jfree/daydate/Month.java:23 | definition: the table 0, 31, 28, 31, 30, 31, 30, 31, 31, 30, 31, 30, 31 by index |
| Months.Month.LastDay | src/main/java/org/jfree/daydate/Month.java:67-69 | the table gives 28 exactly for February, 30 exactly for April, June, September and November, 31 otherwise |
| Months.ValuesInIndexOrder | src/main/java/org/jfree/daydate/Month.java:9-21 | the k-th of `values()` has index k + 1 |
| Months.ToIntInjective | src/main/java/org/jfree/daydate/Month.java:9-21 | two months have the same index exactly when they are the same month |
| Months.FindByIndex | src/main/java/org/jfree/daydate/Month.java:31-38 | the loop from position k finds a month exactly for an index in k+1..12, with that index, and otherwise fails with the index |
| Months.FromInt | src/main/java/org/jfree/daydate/Month.java:31-38 | succeeds exactly for 1..12 with the month of that index; otherwise fails with "Invalid month index" |
| Months.FromIntToInt | src/main/java/org/jfree/daydate/Month.java:31-38 | `fromInt(toInt(m)) == m` for every month |
| Months.Matches | src/main/java/org/jfree/daydate/Month.java:55-57 | definition: the string equals the long name or the short name, ignoring case |
| Months.FirstMatch | src/main/java/org/jfree/daydate/Month.java:42-46 | a month found matches and no earlier position matches; when none is found no position from k on matches |
| Months.Parse | src/main/java/org/jfree/daydate/Month.java:40-53 | on the trimmed string: when some name matches, the first matching month; else, when it is a number, the month of that index or the index failure; else the "not a valid month string" failure |
| Months.FirstMatchIsFirst | src/main/java/org/jfree/daydate/Month.java:42-46 | no month with a smaller index matches than the one found |
| Months.NoMatchAtAll | src/main/java/org/jfree/daydate/Month.java:47-52 | when the scan finds nothing, no month matches |
| Days.Day.ToInt | src/main/java/org/jfree/daydate/Day.java:11-17 | the Calendar index is 1..7, 1 exactly for Sunday, and Monday..Saturday follow as 2..7 |
| Days.Day.Position | src/main/java/org/jfree/daydate/Day.java:11-17 | the position of a weekday in `values()` holds that weekday |
| Days.ToIntInjective | src/main/java/org/jfree/daydate/Day.java:58-60 | two weekdays have the same index exactly when they are the same weekday |
| Days.FindByIndex | src/main/java/org/jfree/daydate/Day.java:26-33 | the loop from position k succeeds exactly for the indices of the weekdays from k on, with that index |
| Days.FromInt | src/main/java/org/jfree/daydate/Day.java:26-33 | succeeds exactly for 1..7 with the weekday of that index; otherwise fails with "Invalid day index" |
| Days.FromIntToInt | src/main/java/org/jfree/daydate/Day.java:26-33 | `fromInt(toInt(d)) == d` for every weekday |
| Days.Matches | src/main/java/org/jfree/daydate/Day.java:45-48 | definition: the string equals the short name or the long name, ignoring case |
| Days.FirstMatch | src/main/java/org/jfree/daydate/Day.java:37-41 | a weekday found matches and no earlier position matches; when none is found none from k on matches |
| Days.Parse | src/main/java/org/jfree/daydate/Day.java:35-43 | succeeds exactly when some weekday's short or long name matches the trimmed string, with the first one in `values()` order; otherwise the "not a valid weekday string" failure |
| SpreadsheetSerial.AggregateDaysToEndOfPrecedingMonth | src/main/java/org/jfree/date/SpreadsheetDate.java:88-89 | definition: the common-year table by index, 0 and 0 then the month ends up to 365 |
| SpreadsheetSerial.LeapYearAggregateDaysToEndOfPrecedingMonth | src/main/java/org/jfree/date/SpreadsheetDate.java:90-91 | definition: the leap-year table by index, 0 and 0 then the month ends up to 366 |
| SpreadsheetSerial.DaysToEndOfPrecedingMonth | src/main/java/org/jfree/date/SpreadsheetDate.java:194-200 | entries 0 and 1 are zero and entry 13 is the length of the year, 366 in a leap year |
| SpreadsheetSerial.TableStep | src/main/java/org/jfree/date/SpreadsheetDate.java:88-91 | consecutive table entries differ by the length of the month between them |
| SpreadsheetSerial.MonthLength | src/main/java/org/jfree/date/SpreadsheetDate.java:88-91 | a month's two table entries are its length apart |
| SpreadsheetSerial.TableMonotone | src/main/java/org/jfree/date/SpreadsheetDate.java:88-91 | the table strictly increases from month 1 to 13 |
| SpreadsheetSerial.LeapTableShift | src/main/java/org/jfree/date/SpreadsheetDate.java:302-307 | the leap table is the common table plus one from March on, which is how `calcSerial` adjusts the common table |
| SpreadsheetSerial.CalcSerial | src/main/java/org/jfree/date/SpreadsheetDate.java:300-310 | definition: the year, month and day parts of `calcSerial` with its `+ 1`; `CalcSerialFromJanuaryFirst`, `CalcSerialWithinYear`, `CalcSerialInRange` and `DecodeCalcSerial` state what it computes |
| SpreadsheetSerial.JanuaryFirstFormula | src/main/java/org/jfree/date/SpreadsheetDate.java:300-310 | 1 January of y is 2 plus 365 per year since 1900 plus the leap years before y |
| SpreadsheetSerial.CalcSerialFromJanuaryFirst | src/main/java/org/jfree/date/SpreadsheetDate.java:300-310 | a serial is 1 January of its year plus the year's table entry for the month plus the day less one |
| SpreadsheetSerial.JanuaryFirstStep | src/main/java/org/jfree/date/SpreadsheetDate.java:300-310 | consecutive years start one year-length apart |
| SpreadsheetSerial.JanuaryFirstIncreasing | src/main/java/org/jfree/date/SpreadsheetDate.java:300-310 | later years start at larger serials |
| SpreadsheetSerial.SupportedRangeEnds | src/main/java/org/jfree/date/SpreadsheetDate.java:84-87 | 1 January 1900 is serial 2, 31 December 9999 is serial 2958465, and 1 January 10000 would follow it |
| SpreadsheetSerial.CalcSerialWithinYear | src/main/java/org/jfree/date/SpreadsheetDate.java:300-310 | a valid date's serial lies between 1 January of its year and 1 January of the next |
| SpreadsheetSerial.CalcSerialInRange | src/main/java/org/jfree/date/SpreadsheetDate.java:113-134 | every day, month and year the triple constructor accepts has a serial in 2..2958465 |
| SpreadsheetSerial.NewYearFollows | src/main/java/org/jfree/date/SpreadsheetDate.java:300-310 | the serial of 1 January is one more than that of the 31 December before it |
| SpreadsheetSerial.NewMonthFollows | src/main/java/org/jfree/date/SpreadsheetDate.java:300-310 | the serial of the first of a month is one more than that of the last day of the month before it |
| SpreadsheetSerial.YearFrom | src/main/java/org/jfree/date/SpreadsheetDate.java:164-173 | the search from a year not after the serial stops at the year whose 1 January is not after the serial and whose next 1 January is |
| SpreadsheetSerial.YearOf | src/main/java/org/jfree/date/SpreadsheetDate.java:156-173 | a serial in range falls in a supported year, between its 1 January and the next, within the year's length |
| SpreadsheetSerial.JanuaryFirstOrder | src/main/java/org/jfree/date/SpreadsheetDate.java:167-172 | a year's 1 January is not after the serial exactly when the year is at most the serial's year (the loop's exit test) |
| SpreadsheetSerial.YearUnique | src/main/java/org/jfree/date/SpreadsheetDate.java:156-173 | at most one year brackets a serial |
| SpreadsheetSerial.MonthFrom | src/main/java/org/jfree/date/SpreadsheetDate.java:180-186 | the scan from month m stops at the month whose table entries bracket the day of the year |
| SpreadsheetSerial.MonthUnique | src/main/java/org/jfree/date/SpreadsheetDate.java:180-186 | at most one month brackets a day of the year |
| SpreadsheetSerial.MonthAndDay | src/main/java/org/jfree/date/SpreadsheetDate.java:186-190 | the month and the day left over are a valid day of the month that lands back on the day of the year |
| SpreadsheetSerial.MonthAndDayUnique | src/main/java/org/jfree/date/SpreadsheetDate.java:180-190 | any month and day that fit the year and land on the day of the year are the ones found |
| SpreadsheetSerial.DayOfYearUnique | src/main/java/org/jfree/date/SpreadsheetDate.java:180-190 | two valid months and days of a year on the same day of the year are equal |
| SpreadsheetDates.SpreadsheetDate.Valid | src/main/java/org/jfree/date/SpreadsheetDate.java:113-134 | definition: the serial is in 2..2958465, the triple passes the constructor's checks, and the serial is `calcSerial` of the triple |
| SpreadsheetDates.SpreadsheetDate.DayOfWeekForOrdinalZero | src/main/java/org/jfree/date/SpreadsheetDate.java:240-243 | definition: Saturday; `DayDateProperties.WeekdayAnchors` proves it agrees with the calendar |
| SpreadsheetDates.SpreadsheetDate.Equals | src/main/java/org/jfree/date/SpreadsheetDate.java:256-266 | definition: the same serial; `SpreadsheetDates.EqualsIsIdentity` proves it is identity on valid dates |
| SpreadsheetDates.SpreadsheetDate.HashCode | src/main/java/org/jfree/date/SpreadsheetDate.java:273-275 | definition: the serial |
| SpreadsheetDates.SpreadsheetDate.GetMonth | src/main/java/org/jfree/date/SpreadsheetDate.java:227-229 | the month index is in 1..12 and `Month.fromInt` maps it back to the month |
| SpreadsheetDates.Make | src/main/java/org/jfree/date/SpreadsheetDate.java:113-134 | a year outside 1900..9999 fails first, then a day outside the month; it succeeds exactly for a valid triple, with a valid date holding that triple |
| SpreadsheetDates.MakeFromIndex | src/main/java/org/jfree/date/SpreadsheetDate.java:136-138 | an index outside 1..12 fails with the index; otherwise the same as the Month constructor, and the date's month has that index |
| SpreadsheetDates.Decode | src/main/java/org/jfree/date/SpreadsheetDate.java:146-152 | succeeds exactly for serials in 2..2958465, with a valid date holding that serial; otherwise the serial failure |
| SpreadsheetDates.FromSerial | src/main/java/org/jfree/date/SpreadsheetDate.java:146-192 | the constructor's loops compute `Decode`: the range check, and a valid date with the given serial |
| SpreadsheetDates.FindYear | src/main/java/org/jfree/date/SpreadsheetDate.java:156-173 | the estimate-then-search finds the serial's year |
| SpreadsheetDates.SearchYear | src/main/java/org/jfree/date/SpreadsheetDate.java:166-173 | the forward search from any supported year not after the serial's year finds that year |
| SpreadsheetDates.FindMonthAndDay | src/main/java/org/jfree/date/SpreadsheetDate.java:175-190 | the month scan and the subtraction give the month and day of the day of the year |
| SpreadsheetDates.OverEstimate | src/main/java/org/jfree/date/SpreadsheetDate.java:156-158 | counting 365-day years never falls below the serial's year |
| SpreadsheetDates.UnderEstimate | src/main/java/org/jfree/date/SpreadsheetDate.java:159-162 | removing the leap days first gives a supported year not above the serial's year, so the search starts in range |
| SpreadsheetDates.SerialYear | src/main/java/org/jfree/date/SpreadsheetDate.java:300-310 | the serial of a valid triple is in range and belongs to that year |
| SpreadsheetDates.DecodeCalcSerial | src/main/java/org/jfree/date/SpreadsheetDate.java:131 | decoding the serial `calcSerial` gives a valid triple yields exactly that triple |
| SpreadsheetDates.NextSerialInMonth | src/main/java/org/jfree/date/SpreadsheetDate.java:146-192 | the serial after a day that is not the month's last decodes to the next day of the same month |
| SpreadsheetDates.NextSerialStartsMonth | src/main/java/org/jfree/date/SpreadsheetDate.java:146-192 | the serial after the last day of a month other than December decodes to the first of the next month |
| SpreadsheetDates.NextSerialStartsYear | src/main/java/org/jfree/date/SpreadsheetDate.java:146-192 | the serial after 31 December (before 9999) decodes to 1 January of the next year |
| SpreadsheetDates.DecodeOf | src/main/java/org/jfree/date/SpreadsheetDate.java:175-190 | a serial decodes to the month and day that land on it within its year |
| SpreadsheetDates.ValidDateIsDecoded | src/main/java/org/jfree/date/SpreadsheetDate.java:146-192 | every valid date is what the serial constructor builds from its serial |
| SpreadsheetDates.MakeThenDecode | src/main/java/org/jfree/date/SpreadsheetDate.java:113-192 | round trip: a date built from a triple is rebuilt unchanged from its serial |
| SpreadsheetDates.DecodeThenMake | src/main/java/org/jfree/date/SpreadsheetDate.java:113-192 | round trip: a date built from a serial is rebuilt unchanged from its triple |
| SpreadsheetDates.EqualsIsIdentity | src/main/java/org/jfree/date/SpreadsheetDate.java:256-275 | on valid dates `equals` (same serial) holds exactly for the same date, and equal dates have equal hash codes |
| SpreadsheetDates.TripleDeterminesDate | src/main/java/org/jfree/date/SpreadsheetDate.java:130-131 | two valid dates with the same day, month and year are the same date |
| DayDates.DaySince | src/main/java/org/jfree/date/DayDate.java:248-250 | definition: the difference of the serials; `DayDateProperties.DaySinceAntisymmetric` states its properties |
| DayDates.PlusDays | src/main/java/org/jfree/date/DayDate.java:107-109 | succeeds exactly when the moved serial is in range, with a valid date exactly `days` after the original; otherwise the serial failure |
| DayDates.PlusOneDay | src/main/java/org/jfree/date/DayDate.java:107-109 | one day later is the date of the next serial |
| DayDates.WeekdayIndex | src/main/java/org/jfree/date/DayDate.java:231-236 | the Calendar index of a serial's weekday, counted from Monday 1 January 1900, is `(serial + 6) % 7 + 1` |
| DayDates.LandsOn | src/main/java/org/jfree/date/DayDate.java:156-197 | moving by the difference of the weekday indices plus whole weeks lands on the target weekday |
| DayDates.WeekdaysWithinAWeekDiffer | src/main/java/org/jfree/date/DayDate.java:231-236 | two serials less than a week apart fall on different weekdays |
| DayDates.OnlyLandingInWindow | src/main/java/org/jfree/date/DayDate.java:156-197 | when the move to the one serial of the target weekday in a window of at most seven fails, no serial of that weekday in the window is in the supported range |
| DayDates.GetDayOfWeek | src/main/java/org/jfree/date/DayDate.java:231-236 | for every serial from -6 on (so every valid date) it is the serial's calendar weekday; below -6 Java's negative remainder makes `Day.fromInt` fail, except when the serial plus 6 is a multiple of 7 |
| DayDates.GetPreviousDayOfWeek | src/main/java/org/jfree/date/DayDate.java:156-162 | the result is a valid date 1 to 7 days earlier on the target weekday, and exists whenever the date is a week past the earliest; for a date in range it fails only when the target weekday in the week before falls before 2 |
| DayDates.GetFollowingDayOfWeek | src/main/java/org/jfree/date/DayDate.java:172-178 | the result is a valid date 1 to 7 days later on the target weekday, and exists whenever the date is a week before the latest; for a date in range it fails only when the target weekday in the week after falls after 2958465 |
| DayDates.GetNearestDayOfWeek | src/main/java/org/jfree/date/DayDate.java:188-197 | the result is a valid date at most 3 days away on the target weekday, and exists away from the range ends; for a date in range it fails only when the target weekday within 3 days falls outside 2..2958465 |
| DayDates.NearestOffsets | src/main/java/org/jfree/date/DayDate.java:189-192 | the forward offset is in 0..6, and when above 3 the backward offset is exactly a week less |
| DayDates.CorrectLastDayOfMonth | src/main/java/org/jfree/date/DayDate.java:144-146 | the day is kept unless it is past the month's end, in which case it becomes the last day |
| DayDates.MonthOrdinal | src/main/java/org/jfree/date/DayDate.java:122 | definition: `12 * year + month - 1`; `DayDateProperties.MonthOrdinalInjective` proves it determines the year and month |
| DayDates.AddMonths | src/main/java/org/jfree/date/DayDate.java:121-128 | on success a valid date `months` later by month ordinal with the day clamped; success exactly when the target month is in 1900..9999; a negative non-multiple-of-12 ordinal gives the month-index failure, other failures the year failure |
| DayDates.PlusYears | src/main/java/org/jfree/date/DayDate.java:137-142 | success exactly when the target year is supported, with a valid date in the same month `years` later and the day clamped; otherwise the year failure |
| DayDates.GetEndOfMonth | src/main/java/org/jfree/date/DayDate.java:205-208 | success exactly for a supported year, with the last day of the same month and year |
| DayDates.CompareTo | src/main/java/org/jfree/date/SpreadsheetDate.java:285-287 | definition: the difference of the serials |
| DayDates.IsOn | src/main/java/org/jfree/date/DayDate.java:260-262 | definition: the same serial |
| DayDates.IsBefore | src/main/java/org/jfree/date/DayDate.java:272-274 | definition: a smaller serial |
| DayDates.IsOnOrBefore | src/main/java/org/jfree/date/DayDate.java:284-286 | definition: a serial no larger |
| DayDates.IsAfter | src/main/java/org/jfree/date/DayDate.java:296-298 | definition: a larger serial |
| DayDates.IsOnOrAfter | src/main/java/org/jfree/date/DayDate.java:308-310 | definition: a serial no smaller |
| DayDates.IsInRange | src/main/java/org/jfree/date/DayDate.java:336-341 | definition: the interval policy applied to the serial between the smaller and the larger bound; `DayDateProperties.RangeBoundsInEitherOrder` states its meaning |
| DayDates.IsInRangeClosed | src/main/java/org/jfree/date/DayDate.java:321-323 | definition: the CLOSED policy |
| DayDateProperties.PlusDaysUndo | src/main/java/org/jfree/date/DayDate.java:107-109 | moving back by the same days returns the original date |
| DayDateProperties.PlusOneDayInMonth | src/main/java/org/jfree/date/DayDate.java:107-109 | one day after a day before the month's end is the next day of the same month |
| DayDateProperties.PlusOneDayStartsMonth | src/main/java/org/jfree/date/DayDate.java:107-109 | one day after the end of a month other than December is the first of the next month |
| DayDateProperties.PlusOneDayStartsYear | src/main/java/org/jfree/date/DayDate.java:107-109 | one day after 31 December of a year before 9999 is 1 January of the next year |
| DayDateProperties.DaySinceAntisymmetric | src/main/java/org/jfree/date/DayDate.java:248-250 | `a.daySince(b) == -b.daySince(a)`, and it is zero between valid dates exactly for the same date |
| DayDateProperties.WeekdayAnchors | src/main/java/org/jfree/date/SpreadsheetDate.java:240-243 | serial 0 is the Saturday `getDayOfWeekForOrdinalZero` returns, and serial 2, 1 January 1900, is a Monday |
| DayDateProperties.WeekdayRepeatsWeekly | src/main/java/org/jfree/date/DayDate.java:231-236 | a serial seven later falls on the same weekday |
| DayDateProperties.WeekApartSameWeekday | src/main/java/org/jfree/date/DayDate.java:231-236 | two dates a week apart, from serial -6 on, have the same `getDayOfWeek` |
| DayDateProperties.DayOfWeekIsWeekdayOf | src/main/java/org/jfree/date/DayDate.java:231-236 | from serial -6 on `getDayOfWeek` succeeds with the serial's calendar weekday |
| DayDateProperties.WeekLaterSameWeekday | src/main/java/org/jfree/date/DayDate.java:107-109 | `plusDays(7)` of a valid date, when it exists, keeps the day of the week |
| DayDateProperties.PreviousIsLatest | src/main/java/org/jfree/date/DayDate.java:148-162 | no day strictly between the previous target weekday and the date falls on the target, so it is the latest one before the date |
| DayDateProperties.FollowingIsEarliest | src/main/java/org/jfree/date/DayDate.java:164-178 | no day strictly between the date and the following target weekday falls on the target, so it is the earliest one after the date |
| DayDateProperties.NearestIsUnique | src/main/java/org/jfree/date/DayDate.java:180-197 | every other day on the target weekday is at least 4 days away, so the result is the closest |
| DayDateProperties.MonthOrdinalInjective | src/main/java/org/jfree/date/DayDate.java:122 | the month ordinal determines the year and the month |
| DayDateProperties.AddMonthsZero | src/main/java/org/jfree/date/DayDate.java:121-128 | adding no months gives the same date |
| DayDateProperties.AddMonthsTwice | src/main/java/org/jfree/date/DayDate.java:111-128 | adding a then b months succeeds exactly when adding a + b does, in the same month and year, on the same or an earlier day |
| DayDateProperties.AddMonthsUndo | src/main/java/org/jfree/date/DayDate.java:121-128 | when the day was not clamped, adding the opposite months returns the original date |
| DayDateProperties.PlusYearsClampsOnlyLeapDay | src/main/java/org/jfree/date/DayDate.java:137-146 | the day changes exactly for 29 February landing in a common year, and then becomes 28 |
| DayDateProperties.PlusYearsUndo | src/main/java/org/jfree/date/DayDate.java:137-142 | when the day was not clamped, going back the same years returns the original date |
| DayDateProperties.EndOfMonthIsLast | src/main/java/org/jfree/date/DayDate.java:199-208 | for a valid date the end of the month exists and lies exactly as many days ahead as the month has days left |
| DayDateProperties.DayAfterEndOfMonth | src/main/java/org/jfree/date/DayDate.java:199-208 | the day after the last day of a month, unless it is the last supported serial, is the first of a month |
| DayDateProperties.CalendarBeforeIsEarlier | src/main/java/org/jfree/date/DayDate.java:252-310 | a date earlier by year, then month, then day has a smaller serial |
| DayDateProperties.ComparisonsFollowTheCalendar | src/main/java/org/jfree/date/DayDate.java:252-310 | on valid dates `isBefore`, `isAfter`, `isOnOrBefore`, `isOnOrAfter` and a negative `compareTo` are exactly the calendar order, and `isOn` is identity |
| DayDateProperties.RangeBoundsInEitherOrder | src/main/java/org/jfree/date/DayDate.java:312-341 | the order of the two bounds does not matter; the closed and open ranges are the dates between the bounds with and without the ends |
| DayDateExamples.LeapYearExamples | src/test/java/org/jfree/date/DayDateTest.java:195-242 | 1900 is not a leap year, 2000 is; the leap-year counts through 1899, 1903, 1904, 1999 and 2000 are 0, 0, 1, 24 and 25 |
| DayDateExamples.MonthParseByName | src/test/java/org/jfree/date/DayDateTest.java:180-184 | "January" and "Jan" parse to January with English names |
| DayDateExamples.MonthParseByIndex | src/test/java/org/jfree/date/DayDateTest.java:180-184 | "1" matches no month name and parses to January by index |
| DayDateExamples.MonthParsePlusSign | src/main/java/org/jfree/daydate/Month.java:40-53 | "+12" matches no name and parses to December by index |
| DayDateExamples.MonthParseMinusSign | src/main/java/org/jfree/daydate/Month.java:40-53 | "-1" matches no name and fails with the month index -1 |
| DayDateExamples.FirstMonthParse | src/main/java/org/jfree/daydate/Month.java:40-57 | every spelling of January's long or short name, in any mix of cases, parses to January |
| DayDateExamples.DayParseExamples | src/test/java/org/jfree/date/DayDateTest.java:165-174 | "Wednesday", "wednesday" and "Wed" parse to Wednesday with English names |
| DayDateExamples.WednesdayParse | src/main/java/org/jfree/daydate/Day.java:35-48 | every spelling of Wednesday's long or short name, in any mix of cases, parses to Wednesday |
| DayDateExamples.MadeFromSerial | src/main/java/org/jfree/date/SpreadsheetDate.java:113-134 | a valid date with the serial of a valid triple is the date the triple constructor makes |
| DayDateExamples.AddMonthsLandsOn | src/main/java/org/jfree/date/DayDate.java:121-128 | `addMonths` lands on the triple with the target month ordinal and the clamped day |
| DayDateExamples.AddMonthsTo9Nov2001 | src/test/java/org/jfree/date/DayDateTest.java:92-99 | 9 November 2001 plus two months is 9 January 2002 |
| DayDateExamples.AddMonthsTo5Oct2003 | src/test/java/org/jfree/date/DayDateTest.java:101-108 | 5 October 2003 plus two months is 5 December 2003 |
| DayDateExamples.AddMonthsTo1Jan2003 | src/test/java/org/jfree/date/DayDateTest.java:110-117 | 1 January 2003 plus no months is itself |
| DayDateExamples.AddMonthsFrom31May2004 | src/test/java/org/jfree/date/DayDateTest.java:278-299 | 31 May 2004 plus one month is 30 June, plus two is 31 July, plus one twice is 30 July |
| DayDateExamples.PlusYearsExample | src/test/java/org/jfree/date/DayDateTest.java:268-276 | 29 February 2004 plus one year is on 28 February 2005 |
| DayDateExamples.DaySinceExamples | src/test/java/org/jfree/date/DayDateTest.java:301-311 | 25 April 2017 is 5 days after 20 April and -5 days after 30 April |
| DayDateExamples.SameWeekdayWithinAWeek | src/main/java/org/jfree/date/DayDate.java:231-236 | two serials less than a week apart on the same weekday are equal |
| DayDateExamples.PreviousIs | src/main/java/org/jfree/date/DayDate.java:156-162 | the previous target weekday is the one serial in the week before the date that falls on it |
| DayDateExamples.FollowingIs | src/main/java/org/jfree/date/DayDate.java:172-178 | the following target weekday is the one serial in the week after the date that falls on it |
| DayDateExamples.NearestIs | src/main/java/org/jfree/date/DayDate.java:188-197 | the nearest target weekday is the one serial within 3 days that falls on it |
| DayDateExamples.MondayPreceding9Nov2001 | src/test/java/org/jfree/date/DayDateTest.java:119-127 | the Monday before Friday 9 November 2001 is 5 November |
| DayDateExamples.MondayFollowing9Nov2001 | src/test/java/org/jfree/date/DayDateTest.java:129-136 | the Monday after Friday 9 November 2001 is 12 November |
| DayDateExamples.MondayNearest9Nov2001 | src/test/java/org/jfree/date/DayDateTest.java:138-145 | the Monday nearest Friday 9 November 2001 is 12 November |
| DayDateExamples.MondayNearest22Jan1970 | src/test/java/org/jfree/date/DayDateTest.java:147-154 | the Monday nearest Thursday 22 January 1970 is 19 January |
| DayDateExamples.SundayNearest3May2017 | src/test/java/org/jfree/date/DayDateTest.java:313-317 | the Sunday nearest Wednesday 3 May 2017 is 30 April 2017 |

## Left out

- `toDate`, `toString` and the `toString`/`toShortString` of `Month` and `Day`: they need `java.util.Calendar`, `String.format` and the JVM's locale, which are not modelled.
- `DateFormatSymbols`: the month and weekday names of the default locale, and the case mapping `equalsIgnoreCase` uses, are parameters (`JavaText.NameTable`). The examples supply English names with ASCII case folding. `DateUtil.getMonthNames` is left out with them.
- `JavaText.EqualsIgnoreCase`: abstracts Java's per-character upper- and lower-case comparison as a single folding function supplied with the names.
- `Months.Parse`: does not model the `e.printStackTrace()` on the `NumberFormatException` path (Month.java:50), an output side effect; the failure it then throws is modelled.
- `JavaText.ParseInt`: does not accept the non-ASCII Unicode digits that `Integer.parseInt` also reads.
- `DayDateFactory`, `SpreadSheetDateFactory` and `WeekInMonth` are not part of this model. The factory is taken to hand out `SpreadsheetDate`, so `make` is `SpreadsheetDates.Make` and `makeDate` is `SpreadsheetDates.Decode`.
- `MonthConstants` is not part of this model. `calcSerial` compares the month with `MonthConstants.FEBRUARY`, taken to be 2 (`SpreadsheetSerial.FEBRUARY_INDEX`).
- Serialization (`serialVersionUID`, the serialization test) and the exception message texts.
- `SpreadsheetDates.SpreadsheetDate.Equals`: only compares two `SpreadsheetDate` values. `equals` on an object that is not a `DayDate` returns false, and that case is not modelled.
- `DayDates.PlusDays`: does not model 32-bit wrap-around of `getOrdinalDay() + days`. Integers are unbounded, so a huge `days` fails the range check instead of wrapping into range.
- `DayDates.AddMonths`: does not model 32-bit wrap-around of `12 * getYear() + getMonth() - 1 + months`. The same holds for `DayDates.PlusYears` and `getYear() + years`.
- `DayDates.GetEndOfMonth`: the `base` argument is accepted and ignored, as in the code.
- `DayDates.GetNearestDayOfWeek` follows the code's Java remainder. The backward offset `(x - 7) % 7` lies in -6..0, and is used only when the forward offset exceeds 3, where it is the forward offset less 7.
- `DayDates.GetDayOfWeek` returns a `Result`: `Day.fromInt` throws for the index a negative remainder produces. Valid dates never reach that case.
- `DayDateProperties.PlusOneDayStartsYear` requires a year before 9999: 31 December 9999 has the last serial and no next day.
- The lookup tables (`LAST_DAY_OF_MONTH`, the two aggregate tables) are functions over the index rather than arrays; no code writes to them.
- The serial constructor's two steps are methods (`FindYear`, `SearchYear`, `FindMonthAndDay`) that `FromSerial` calls in sequence. The source has them inline.
