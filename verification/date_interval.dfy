/** `DateInterval`: the four ways the end points of a range can be treated when testing
    whether a date (an ordinal) lies in it. */
module DateIntervals {

  datatype DateInterval = OPEN | CLOSED_LEFT | CLOSED_RIGHT | CLOSED
  {
    /** `isIn(date, start, end)`, dispatched on the policy. */
    predicate IsIn(date: int, start: int, end: int) {
      match this
      case OPEN => date > start && date < end
      case CLOSED_LEFT => date >= start && date < end
      case CLOSED_RIGHT => date > start && date <= end
      case CLOSED => date >= start && date <= end
    }
  }

  /** Each policy adds end points to the open interval: OPEN lies inside both half-closed
      policies, and each of those lies inside CLOSED. */
  lemma IntervalNesting(date: int, start: int, end: int)
    ensures OPEN.IsIn(date, start, end) ==> CLOSED_LEFT.IsIn(date, start, end) && CLOSED_RIGHT.IsIn(date, start, end)
    ensures CLOSED_LEFT.IsIn(date, start, end) ==> CLOSED.IsIn(date, start, end)
    ensures CLOSED_RIGHT.IsIn(date, start, end) ==> CLOSED.IsIn(date, start, end)
  {
  }

  /** Every policy is the open interval plus exactly the end points it closes. */
  lemma IntervalEndPoints(i: DateInterval, date: int, start: int, end: int)
    requires start < end
    ensures i.IsIn(date, start, end) <==>
      || OPEN.IsIn(date, start, end)
      || (date == start && i in {CLOSED_LEFT, CLOSED})
      || (date == end && i in {CLOSED_RIGHT, CLOSED})
  {
  }

  /** On a one-day range only CLOSED can hold, and only for that day. */
  lemma DegenerateInterval(i: DateInterval, date: int, start: int)
    ensures i.IsIn(date, start, start) <==> i == CLOSED && date == start
  {
  }
}
