/** The serial-number arithmetic of SpreadsheetDate: the supported range, the two tables of
    days before each month, `calcSerial`, and what the conversion back from a serial needs
    to know about them. Serial 2 is 1-Jan-1900 and serial 2958465 is 31-Dec-9999. */
module SpreadsheetSerial {

  import opened Months
  import opened DateUtil

  const EARLIEST_DATE_ORDINAL := 2        // 1-Jan-1900
  const LATEST_DATE_ORDINAL := 2958465    // 31-Dec-9999
  const MINIMUM_YEAR_SUPPORTED := 1900
  const MAXIMUM_YEAR_SUPPORTED := 9999

  /** The index of February in the month numbering that `calcSerial` compares against. */
  const FEBRUARY_INDEX := 2

  /** `AGGREGATE_DAYS_TO_END_OF_PRECEDING_MONTH[m]`: the days of a common year before
      month m (entry 0 pads the table so that it is indexed by month number, entry 13 is
      the whole year). */
  function AggregateDaysToEndOfPrecedingMonth(m: int): int
    requires 0 <= m < 14
  {
    match m
    case 0 => 0
    case 1 => 0
    case 2 => 31
    case 3 => 59
    case 4 => 90
    case 5 => 120
    case 6 => 151
    case 7 => 181
    case 8 => 212
    case 9 => 243
    case 10 => 273
    case 11 => 304
    case 12 => 334
    case _ => 365
  }

  /** `LEAP_YEAR_AGGREGATE_DAYS_TO_END_OF_PRECEDING_MONTH[m]`: the same for a leap year. */
  function LeapYearAggregateDaysToEndOfPrecedingMonth(m: int): int
    requires 0 <= m < 14
  {
    match m
    case 0 => 0
    case 1 => 0
    case 2 => 31
    case 3 => 60
    case 4 => 91
    case 5 => 121
    case 6 => 152
    case 7 => 182
    case 8 => 213
    case 9 => 244
    case 10 => 274
    case 11 => 305
    case 12 => 335
    case _ => 366
  }

  /** A day, month and year that the triple constructor accepts. */
  predicate ValidTriple(day: int, month: Month, year: int) {
    && MINIMUM_YEAR_SUPPORTED <= year <= MAXIMUM_YEAR_SUPPORTED
    && 1 <= day <= LastDayOfMonth(month, year)
  }

  /** `getDaysToEndOfPrecedingMonth()[m]`: entry m of the leap-year table in a leap year
      and of the common-year table otherwise. Entries 0 and 1 are zero and the last entry
      is the length of the year. */
  function DaysToEndOfPrecedingMonth(year: int, m: int): (r: int)
    requires 0 <= m < 14
    ensures m <= 1 ==> r == 0
    ensures m == 13 ==> r == if IsLeapYear(year) then 366 else 365
  {
    if IsLeapYear(year) then LeapYearAggregateDaysToEndOfPrecedingMonth(m)
    else AggregateDaysToEndOfPrecedingMonth(m)
  }

  /** Consecutive entries of the table differ by the length of the month between them, so
      entry m counts the days of the year before month m. */
  lemma TableStep(year: int, m: int)
    requires 1 <= m <= 12
    ensures DaysToEndOfPrecedingMonth(year, m + 1) - DaysToEndOfPrecedingMonth(year, m)
      == LastDayOfMonth(VALUES[m - 1], year)
  {
  }

  /** The same, indexed by the month itself: its table entries are its length apart. */
  lemma MonthLength(year: int, month: Month)
    ensures DaysToEndOfPrecedingMonth(year, month.ToInt() + 1)
      - DaysToEndOfPrecedingMonth(year, month.ToInt()) == LastDayOfMonth(month, year)
  {
  }

  /** The table never decreases between months 1 and 13. */
  lemma {:induction false} TableMonotone(year: int, i: int, j: int)
    requires 1 <= i <= j <= 13
    ensures DaysToEndOfPrecedingMonth(year, i) <= DaysToEndOfPrecedingMonth(year, j)
    ensures i < j ==> DaysToEndOfPrecedingMonth(year, i) < DaysToEndOfPrecedingMonth(year, j)
    decreases j - i
  {
    if i < j {
      TableMonotone(year, i, j - 1);
      TableStep(year, j - 1);
    }
  }

  /** The leap table is the common table with February's extra day added from March on. */
  lemma LeapTableShift(year: int, m: int)
    requires 0 <= m < 14
    ensures DaysToEndOfPrecedingMonth(year, m) ==
      AggregateDaysToEndOfPrecedingMonth(m) + if m > FEBRUARY_INDEX && IsLeapYear(year) then 1 else 0
  {
  }

  /** `calcSerial(d, m, y)`: days of the whole years since 1900, plus the leap days among
      them, plus the days of the year before month m (the common-year table, one more after
      February of a leap year), plus the day, plus one. */
  function CalcSerial(d: int, m: int, y: int): int
    requires 0 <= m < 14
  {
    var yy := (y - 1900) * 365 + LeapYearCount(y - 1);
    var mm := AggregateDaysToEndOfPrecedingMonth(m)
      + if m > FEBRUARY_INDEX && IsLeapYear(y) then 1 else 0;
    var dd := d;
    yy + mm + dd + 1
  }

  /** The serial of 1 January of `y`. */
  function JanuaryFirst(y: int): int {
    CalcSerial(1, 1, y)
  }

  /** 1 January of `y` is two, plus 365 days for each year since 1900, plus one day for
      each leap year among them. */
  lemma JanuaryFirstFormula(y: int)
    ensures JanuaryFirst(y) == (y - MINIMUM_YEAR_SUPPORTED) * 365 + LeapYearCount(y - 1) + 2
  {
  }

  /** A serial is 1 January of its year plus the days of the year before the month, plus the
      day of the month less one. */
  lemma CalcSerialFromJanuaryFirst(d: int, m: int, y: int)
    requires 1 <= m <= 12
    ensures CalcSerial(d, m, y) == JanuaryFirst(y) + DaysToEndOfPrecedingMonth(y, m) + d - 1
  {
    LeapTableShift(y, m);
  }

  /** Consecutive years' first days are one year-length apart. */
  lemma JanuaryFirstStep(y: int)
    requires y >= 1897
    ensures JanuaryFirst(y + 1) == JanuaryFirst(y) + DaysToEndOfPrecedingMonth(y, 13)
  {
    LeapYearCountStep(y);
  }

  /** Later years start later. */
  lemma {:induction false} JanuaryFirstIncreasing(a: int, b: int)
    requires 1897 <= a < b
    ensures JanuaryFirst(a) < JanuaryFirst(b)
    decreases b - a
  {
    JanuaryFirstStep(b - 1);
    if a < b - 1 {
      JanuaryFirstIncreasing(a, b - 1);
    }
  }

  /** The supported range is exactly the years 1900 to 9999. */
  lemma SupportedRangeEnds()
    ensures JanuaryFirst(MINIMUM_YEAR_SUPPORTED) == EARLIEST_DATE_ORDINAL
    ensures JanuaryFirst(MAXIMUM_YEAR_SUPPORTED + 1) == LATEST_DATE_ORDINAL + 1
    ensures CalcSerial(31, 12, MAXIMUM_YEAR_SUPPORTED) == LATEST_DATE_ORDINAL
  {
  }

  /** A valid date's serial falls within its year. */
  lemma CalcSerialWithinYear(day: int, month: Month, year: int)
    requires ValidTriple(day, month, year)
    ensures JanuaryFirst(year) <= CalcSerial(day, month.ToInt(), year) < JanuaryFirst(year + 1)
  {
    var m := month.ToInt();
    CalcSerialFromJanuaryFirst(day, m, year);
    MonthLength(year, month);
    TableMonotone(year, m + 1, 13);
    TableMonotone(year, 1, m);
    JanuaryFirstStep(year);
  }

  /** Every valid day, month and year has a serial in 2..2958465. */
  lemma CalcSerialInRange(day: int, month: Month, year: int)
    requires ValidTriple(day, month, year)
    ensures EARLIEST_DATE_ORDINAL <= CalcSerial(day, month.ToInt(), year) <= LATEST_DATE_ORDINAL
  {
    CalcSerialWithinYear(day, month, year);
    SupportedRangeEnds();
    if year > MINIMUM_YEAR_SUPPORTED {
      JanuaryFirstIncreasing(MINIMUM_YEAR_SUPPORTED, year);
    }
    if year < MAXIMUM_YEAR_SUPPORTED {
      JanuaryFirstIncreasing(year + 1, MAXIMUM_YEAR_SUPPORTED + 1);
    }
  }

  /** 1 January follows 31 December. */
  lemma NewYearFollows(year: int)
    requires year >= MINIMUM_YEAR_SUPPORTED
    ensures CalcSerial(1, 1, year + 1) == CalcSerial(31, 12, year) + 1
  {
    CalcSerialFromJanuaryFirst(31, 12, year);
    MonthLength(year, DECEMBER);
    JanuaryFirstStep(year);
    CalcSerialFromJanuaryFirst(1, 1, year + 1);
  }

  /** The first of a month follows the last day of the month before it in the same year. */
  lemma NewMonthFollows(month: Month, year: int)
    requires month != DECEMBER
    ensures CalcSerial(1, month.ToInt() + 1, year)
      == CalcSerial(LastDayOfMonth(month, year), month.ToInt(), year) + 1
  {
    var i := month.ToInt();
    CalcSerialFromJanuaryFirst(LastDayOfMonth(month, year), i, year);
    MonthLength(year, month);
    CalcSerialFromJanuaryFirst(1, i + 1, year);
  }

  /** The year search of the serial constructor, from `year` on: the last year whose
      1 January is not after `serial`. */
  function YearFrom(year: int, serial: int): (r: int)
    requires MINIMUM_YEAR_SUPPORTED <= year <= MAXIMUM_YEAR_SUPPORTED
    requires JanuaryFirst(year) <= serial <= LATEST_DATE_ORDINAL
    ensures year <= r <= MAXIMUM_YEAR_SUPPORTED
    ensures JanuaryFirst(r) <= serial < JanuaryFirst(r + 1)
    decreases MAXIMUM_YEAR_SUPPORTED - year, serial
  {
    if year < MAXIMUM_YEAR_SUPPORTED && JanuaryFirst(year + 1) <= serial then
      YearFrom(year + 1, serial)
    else
      SupportedRangeEnds();
      year
  }

  /** The year a serial in the supported range falls in. */
  function YearOf(serial: int): (r: int)
    requires EARLIEST_DATE_ORDINAL <= serial <= LATEST_DATE_ORDINAL
    ensures MINIMUM_YEAR_SUPPORTED <= r <= MAXIMUM_YEAR_SUPPORTED
    ensures JanuaryFirst(r) <= serial < JanuaryFirst(r + 1)
    ensures 0 <= serial - JanuaryFirst(r) < DaysToEndOfPrecedingMonth(r, 13)
  {
    SupportedRangeEnds();
    var year := YearFrom(MINIMUM_YEAR_SUPPORTED, serial);
    JanuaryFirstStep(year);
    year
  }

  /** A year whose 1 January is not after the serial is at most the serial's year, and
      conversely. */
  lemma JanuaryFirstOrder(z: int, y: int, serial: int)
    requires z >= 1897 && y >= 1897
    requires JanuaryFirst(y) <= serial < JanuaryFirst(y + 1)
    ensures JanuaryFirst(z) <= serial <==> z <= y
  {
    if z > y {
      if z > y + 1 {
        JanuaryFirstIncreasing(y + 1, z);
      }
    } else if z < y {
      JanuaryFirstIncreasing(z, y);
    }
  }

  /** At most one year brackets a serial. */
  lemma YearUnique(y: int, z: int, serial: int)
    requires y >= 1897 && z >= 1897
    requires JanuaryFirst(y) <= serial < JanuaryFirst(y + 1)
    requires JanuaryFirst(z) <= serial < JanuaryFirst(z + 1)
    ensures y == z
  {
    JanuaryFirstOrder(z, y, serial);
    JanuaryFirstOrder(y, z, serial);
  }

  /** The month scan of the serial constructor, from month `m` on: the month whose table
      entries bracket the (zero-based) day of the year. */
  function MonthFrom(year: int, dayOfYear: int, m: int): (r: int)
    requires 1 <= m <= 12
    requires DaysToEndOfPrecedingMonth(year, m) <= dayOfYear < DaysToEndOfPrecedingMonth(year, 13)
    ensures m <= r <= 12
    ensures DaysToEndOfPrecedingMonth(year, r) <= dayOfYear < DaysToEndOfPrecedingMonth(year, r + 1)
    decreases 12 - m, dayOfYear
  {
    var next := DaysToEndOfPrecedingMonth(year, m + 1);
    if dayOfYear < next then m
    else MonthFrom(year, dayOfYear, m + 1)
  }

  /** At most one month brackets a day of the year. */
  lemma MonthUnique(year: int, dayOfYear: int, a: int, b: int)
    requires 1 <= a <= 12 && 1 <= b <= 12
    requires DaysToEndOfPrecedingMonth(year, a) <= dayOfYear < DaysToEndOfPrecedingMonth(year, a + 1)
    requires DaysToEndOfPrecedingMonth(year, b) <= dayOfYear < DaysToEndOfPrecedingMonth(year, b + 1)
    ensures a == b
  {
    if a < b {
      TableMonotone(year, a + 1, b);
    } else if b < a {
      TableMonotone(year, b + 1, a);
    }
  }

  /** The month and day of the month of the zero-based `dayOfYear` in `year`: the month the
      scan from January finds, and the days left over after the months before it. */
  function MonthAndDay(year: int, dayOfYear: int): (r: (Month, int))
    requires 0 <= dayOfYear < DaysToEndOfPrecedingMonth(year, 13)
    ensures 1 <= r.1 <= LastDayOfMonth(r.0, year)
    ensures DaysToEndOfPrecedingMonth(year, r.0.ToInt()) + r.1 - 1 == dayOfYear
  {
    var m := MonthFrom(year, dayOfYear, 1);
    var month := FromInt(m).value;
    ValuesInIndexOrder(m - 1);
    ToIntInjective(VALUES[m - 1], month);
    TableStep(year, m);
    (month, dayOfYear - DaysToEndOfPrecedingMonth(year, m) + 1)
  }

  /** A month and day that fit the year and land on `dayOfYear` are the ones `MonthAndDay`
      gives. */
  lemma MonthAndDayUnique(year: int, dayOfYear: int, month: Month, day: int)
    requires 1 <= day <= LastDayOfMonth(month, year)
    requires DaysToEndOfPrecedingMonth(year, month.ToInt()) + day - 1 == dayOfYear
    requires dayOfYear < DaysToEndOfPrecedingMonth(year, 13)
    ensures MonthAndDay(year, dayOfYear) == (month, day)
  {
    var r := MonthAndDay(year, dayOfYear);
    DayOfYearUnique(year, month, day, r.0, r.1);
  }

  /** Two months and days of the same year that fit and land on the same day of the year
      are the same. */
  lemma DayOfYearUnique(year: int, a: Month, da: int, b: Month, db: int)
    requires 1 <= da <= LastDayOfMonth(a, year) && 1 <= db <= LastDayOfMonth(b, year)
    requires DaysToEndOfPrecedingMonth(year, a.ToInt()) + da
      == DaysToEndOfPrecedingMonth(year, b.ToInt()) + db
    ensures a == b && da == db
  {
    MonthLength(year, a);
    MonthLength(year, b);
    var dayOfYear := DaysToEndOfPrecedingMonth(year, a.ToInt()) + da - 1;
    MonthUnique(year, dayOfYear, a.ToInt(), b.ToInt());
    ToIntInjective(a, b);
  }
}
