/** The `Month` enum: twelve variants carrying their 1-based index and, for a common year,
    their number of days; lookup by index and by name. */
module Months {

  import opened Errors
  import opened JavaText

  datatype Month =
    | JANUARY | FEBRUARY | MARCH | APRIL | MAY | JUNE
    | JULY | AUGUST | SEPTEMBER | OCTOBER | NOVEMBER | DECEMBER
  {
    /** The month's index, January = 1. */
    function ToInt(): (i: int)
      ensures 1 <= i <= 12
    {
      match this
      case JANUARY => 1
      case FEBRUARY => 2
      case MARCH => 3
      case APRIL => 4
      case MAY => 5
      case JUNE => 6
      case JULY => 7
      case AUGUST => 8
      case SEPTEMBER => 9
      case OCTOBER => 10
      case NOVEMBER => 11
      case DECEMBER => 12
    }

    /** The last day of the month in a common year, read from LAST_DAY_OF_MONTH. */
    function LastDay(): (d: int)
      ensures d == 28 <==> this == FEBRUARY
      ensures d == 30 <==> this == APRIL || this == JUNE || this == SEPTEMBER || this == NOVEMBER
      ensures d == 28 || d == 30 || d == 31
    {
      LastDayOfMonthTable(ToInt())
    }
  }

  /** LAST_DAY_OF_MONTH: entry i is the length of month i in a common year; entry 0 is
      padding so that the month index can be used directly. */
  function LastDayOfMonthTable(i: int): int
    requires 0 <= i < 13
  {
    match i
    case 0 => 0
    case 1 => 31
    case 2 => 28
    case 3 => 31
    case 4 => 30
    case 5 => 31
    case 6 => 30
    case 7 => 31
    case 8 => 31
    case 9 => 30
    case 10 => 31
    case 11 => 30
    case _ => 31
  }

  /** `Month.values()`: the variants in declaration order. */
  const VALUES: seq<Month> :=
    [JANUARY, FEBRUARY, MARCH, APRIL, MAY, JUNE, JULY, AUGUST, SEPTEMBER, OCTOBER, NOVEMBER, DECEMBER]

  /** Declaration order agrees with the index: the k-th value has index k + 1. */
  lemma ValuesInIndexOrder(k: int)
    requires 0 <= k < 12
    ensures |VALUES| == 12 && VALUES[k].ToInt() == k + 1
  {
  }

  /** Distinct months have distinct indices. */
  lemma ToIntInjective(m: Month, n: Month)
    ensures m.ToInt() == n.ToInt() <==> m == n
  {
  }

  /** The loop of `fromInt` from position `k` of `values()` on. */
  function FindByIndex(monthIndex: int, k: nat): (r: Result<Month>)
    requires k <= |VALUES|
    ensures r.Success? <==> k < monthIndex <= 12
    ensures r.Success? ==> r.value.ToInt() == monthIndex
    ensures r.Failure? ==> r.error == InvalidMonthIndex(monthIndex)
    decreases |VALUES| - k, monthIndex
  {
    if k == |VALUES| then Failure(InvalidMonthIndex(monthIndex))
    else if VALUES[k].ToInt() == monthIndex then Success(VALUES[k])
    else FindByIndex(monthIndex, k + 1)
  }

  /** `Month.fromInt`: the month with the given index, failing outside 1..12. */
  function FromInt(monthIndex: int): (r: Result<Month>)
    ensures r.Success? <==> 1 <= monthIndex <= 12
    ensures r.Success? ==> r.value.ToInt() == monthIndex
    ensures r.Failure? ==> r.error == InvalidMonthIndex(monthIndex)
  {
    FindByIndex(monthIndex, 0)
  }

  /** `fromInt` inverts `toInt`. */
  lemma FromIntToInt(m: Month)
    ensures FromInt(m.ToInt()) == Success(m)
  {
    ToIntInjective(FromInt(m.ToInt()).value, m);
  }

  /** `matches`: the string equals the month's long or short name, ignoring case. */
  predicate Matches(m: Month, monthString: string, names: NameTable<Month>) {
    || EqualsIgnoreCase(monthString, names.longName(m), names.fold)
    || EqualsIgnoreCase(monthString, names.shortName(m), names.fold)
  }

  /** The first month at or after position `k` of `values()` whose name matches. */
  function FirstMatch(monthString: string, names: NameTable<Month>, k: nat): (r: Option<Month>)
    requires k <= |VALUES|
    ensures r.Some? ==> Matches(r.value, monthString, names) && k < r.value.ToInt()
    ensures r.Some? ==> forall j :: k <= j < r.value.ToInt() - 1 ==> !Matches(VALUES[j], monthString, names)
    ensures r.None? ==> forall j :: k <= j < |VALUES| ==> !Matches(VALUES[j], monthString, names)
    decreases |VALUES| - k, monthString
  {
    if k == |VALUES| then None
    else if Matches(VALUES[k], monthString, names) then (ValuesInIndexOrder(k); Some(VALUES[k]))
    else FirstMatch(monthString, names, k + 1)
  }

  /** `Month.parse`: trim the string, then take the first month (in index order) whose long
      or short name matches it; failing that, read it as a month index with
      `Integer.parseInt` and `fromInt`; a string that is not a number is rejected. */
  function Parse(monthString: string, names: NameTable<Month>): (r: Result<Month>)
    ensures var s := Trim(monthString);
      && ((exists m: Month :: Matches(m, s, names)) ==>
            r.Success? && Matches(r.value, s, names)
            && forall m: Month :: m.ToInt() < r.value.ToInt() ==> !Matches(m, s, names))
      && ((forall m: Month :: !Matches(m, s, names)) && ParseInt(s).Some? ==>
            (r.Success? <==> 1 <= ParseInt(s).value <= 12)
            && (r.Success? ==> r.value.ToInt() == ParseInt(s).value)
            && (r.Failure? ==> r.error == InvalidMonthIndex(ParseInt(s).value)))
      && ((forall m: Month :: !Matches(m, s, names)) && ParseInt(s).None? ==>
            r == Failure(InvalidMonthString(s)))
  {
    var s := Trim(monthString);
    match FirstMatch(s, names, 0)
    case Some(m) => FirstMatchIsFirst(s, names, m); Success(m)
    case None =>
      NoMatchAtAll(s, names);
      match ParseInt(s)
      case Some(n) => FromInt(n)
      case None => Failure(InvalidMonthString(s))
  }

  /** What `FirstMatch` says of positions holds of the months with smaller index. */
  lemma FirstMatchIsFirst(s: string, names: NameTable<Month>, m: Month)
    requires FirstMatch(s, names, 0) == Some(m)
    ensures forall m': Month :: m'.ToInt() < m.ToInt() ==> !Matches(m', s, names)
  {
    forall m': Month | m'.ToInt() < m.ToInt() ensures !Matches(m', s, names) {
      ValuesInIndexOrder(m'.ToInt() - 1);
      ToIntInjective(VALUES[m'.ToInt() - 1], m');
    }
  }

  lemma NoMatchAtAll(s: string, names: NameTable<Month>)
    requires FirstMatch(s, names, 0) == None
    ensures forall m: Month :: !Matches(m, s, names)
  {
    forall m: Month ensures !Matches(m, s, names) {
      ValuesInIndexOrder(m.ToInt() - 1);
      ToIntInjective(VALUES[m.ToInt() - 1], m);
    }
  }
}
