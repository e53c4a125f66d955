/** The failures of the date classes. The Java code signals every one of them with an
    IllegalArgumentException; here each message becomes a variant of `Error`, and the
    operations that can throw return a `Result`. */
module Errors {

  datatype Error =
    | YearOutOfRange                 // the 'year' argument is outside 1900..9999
    | InvalidDay                     // the 'day' argument is outside 1..lastDayOfMonth
    | SerialOutOfRange               // the serial is outside 2..2958465
    | InvalidMonthIndex(index: int)  // Month.fromInt found no month with this index
    | InvalidDayIndex(index: int)    // Day.fromInt found no weekday with this index
    | InvalidMonthString(text: string)
    | InvalidWeekdayString(text: string)

  datatype Result<+T> = Success(value: T) | Failure(error: Error) {

    predicate IsFailure() {
      Failure?
    }

    function PropagateFailure<U>(): Result<U>
      requires Failure?
    {
      Failure(error)
    }

    function Extract(): T
      requires Success?
    {
      value
    }
  }

  datatype Option<+T> = None | Some(value: T)
}
