/**
 * The shapes of the engine's answers: a value that may be missing (a field
 * that `parseInt` turned into NaN, a month the `switch` has no case for) and
 * a value or the error the JavaScript code throws instead.
 */
module Outcomes {

  datatype Option<T> = None | Some(value: T)

  /** What the engine throws. */
  datatype CalendarError =
    | InvalidJalaaliYear(year: int)   // `new Error('Invalid Jalaali year ' + jy)` from jalCal
    | Thrown(message: string)         // a plain string thrown by the conversion wrappers

  datatype Result<T> = Ok(value: T) | Err(error: CalendarError)
}
