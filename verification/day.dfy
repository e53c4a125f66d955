/** The `Day` enum: the seven weekdays, carrying the index java.util.Calendar gives them
    (SUNDAY = 1, MONDAY = 2, ..., SATURDAY = 7); lookup by index and by name. */
module Days {

  import opened Errors
  import opened JavaText

  datatype Day = MONDAY | TUESDAY | WEDNESDAY | THURSDAY | FRIDAY | SATURDAY | SUNDAY
  {
    /** The Calendar index of the weekday. */
    function ToInt(): (i: int)
      ensures 1 <= i <= 7
      ensures this == SUNDAY <==> i == 1
      ensures this != SUNDAY ==> i == Position() + 2
    {
      match this
      case SUNDAY => 1
      case MONDAY => 2
      case TUESDAY => 3
      case WEDNESDAY => 4
      case THURSDAY => 5
      case FRIDAY => 6
      case SATURDAY => 7
    }

    /** The position of the variant in declaration order, that is in `values()`. */
    function Position(): (p: nat)
      ensures p < |VALUES| && VALUES[p] == this
    {
      match this
      case MONDAY => 0
      case TUESDAY => 1
      case WEDNESDAY => 2
      case THURSDAY => 3
      case FRIDAY => 4
      case SATURDAY => 5
      case SUNDAY => 6
    }
  }

  /** `Day.values()`: the variants in declaration order, Monday first. */
  const VALUES: seq<Day> := [MONDAY, TUESDAY, WEDNESDAY, THURSDAY, FRIDAY, SATURDAY, SUNDAY]

  /** Distinct weekdays have distinct indices. */
  lemma ToIntInjective(d: Day, e: Day)
    ensures d.ToInt() == e.ToInt() <==> d == e
  {
  }

  /** The loop of `fromInt` from position `k` of `values()` on. */
  function FindByIndex(index: int, k: nat): (r: Result<Day>)
    requires k <= |VALUES|
    ensures r.Success? <==> (index == 1 && k < |VALUES|) || (k + 2 <= index <= 7)
    ensures r.Success? ==> r.value.ToInt() == index && k <= r.value.Position()
    ensures r.Failure? ==> r.error == InvalidDayIndex(index)
    decreases |VALUES| - k, index
  {
    if k == |VALUES| then Failure(InvalidDayIndex(index))
    else if VALUES[k].ToInt() == index then Success(VALUES[k])
    else FindByIndex(index, k + 1)
  }

  /** `Day.fromInt`: the weekday with the given Calendar index, failing outside 1..7. */
  function FromInt(index: int): (r: Result<Day>)
    ensures r.Success? <==> 1 <= index <= 7
    ensures r.Success? ==> r.value.ToInt() == index
    ensures r.Failure? ==> r.error == InvalidDayIndex(index)
  {
    FindByIndex(index, 0)
  }

  /** `fromInt` inverts `toInt`. */
  lemma FromIntToInt(d: Day)
    ensures FromInt(d.ToInt()) == Success(d)
  {
    ToIntInjective(FromInt(d.ToInt()).value, d);
  }

  /** `matches`: the string equals the weekday's short or long name, ignoring case. */
  predicate Matches(d: Day, dayString: string, names: NameTable<Day>) {
    || EqualsIgnoreCase(dayString, names.shortName(d), names.fold)
    || EqualsIgnoreCase(dayString, names.longName(d), names.fold)
  }

  /** The first weekday at or after position `k` of `values()` whose name matches. */
  function FirstMatch(dayString: string, names: NameTable<Day>, k: nat): (r: Option<Day>)
    requires k <= |VALUES|
    ensures r.Some? ==> Matches(r.value, dayString, names) && k <= r.value.Position()
    ensures r.Some? ==> forall j :: k <= j < r.value.Position() ==> !Matches(VALUES[j], dayString, names)
    ensures r.None? ==> forall j :: k <= j < |VALUES| ==> !Matches(VALUES[j], dayString, names)
    decreases |VALUES| - k, dayString
  {
    if k == |VALUES| then None
    else if Matches(VALUES[k], dayString, names) then
      assert VALUES[k].Position() == k;
      Some(VALUES[k])
    else FirstMatch(dayString, names, k + 1)
  }

  /** `Day.parse`: trim the string, then take the first weekday (Monday first) whose short
      or long name matches it; unlike Month.parse there is no numeric fallback. */
  function Parse(dayString: string, names: NameTable<Day>): (r: Result<Day>)
    ensures var s := Trim(dayString);
      && (r.Success? <==> exists d: Day :: Matches(d, s, names))
      && (r.Success? ==> Matches(r.value, s, names))
      && (r.Success? ==> forall d: Day :: d.Position() < r.value.Position() ==> !Matches(d, s, names))
      && (r.Failure? ==> r.error == InvalidWeekdayString(s))
  {
    var s := Trim(dayString);
    match FirstMatch(s, names, 0)
    case Some(d) => Success(d)
    case None =>
      assert forall d: Day :: !Matches(d, s, names) by {
        forall d: Day ensures !Matches(d, s, names) {
          assert VALUES[d.Position()] == d;
        }
      }
      Failure(InvalidWeekdayString(s))
  }
}
