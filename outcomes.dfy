/** Results and errors of the contact book: every exception the Python code
    raises from its core becomes an `Err` value carrying one of these errors. */
module Outcomes {

  datatype Option<+T> = None | Some(value: T)

  /** The exceptions raised by the value types, `Record` and the birthday query. */
  datatype Error =
    | InvalidPhone(phone: string)     // Phone: not exactly ten digits
    | InvalidDate(text: string)       // Birthday: text is not DD.MM.YYYY or not a calendar date
    | BirthdayAlreadySet              // Record.add_birthday on a record that has one
    | YearOutOfRange(year: int)       // date.replace with a year outside 1..9999
    | DayOutOfRange(day: int)         // date.replace giving a day the month does not have

  /** A value or the error that stopped its computation; usable with `:-`. */
  datatype Result<+T> = Ok(value: T) | Err(error: Error) {
    predicate IsFailure() { Err? }

    function PropagateFailure<U>(): Result<U>
      requires Err?
    {
      Err(error)
    }

    function Extract(): T
      requires Ok?
    {
      value
    }
  }

  /** The outcome of an operation that returns nothing but may raise. */
  datatype Outcome = Pass | Fail(error: Error)
}
