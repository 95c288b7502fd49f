/**
 * Value types shared by every part of the model: optional values, results
 * with an error side, calendar dates and wall-clock times of day.
 */
module Common {

  /** A nullable column or a missing request parameter. */
  datatype Option<+T> = None | Some(value: T)

  /** The outcome of an operation that the application can reject. */
  datatype Result<+T, +E> = Ok(value: T) | Err(error: E)

  /** The outcome of a check that returns nothing on success. */
  datatype Outcome<+E> = Pass | Fail(error: E)

  /** A calendar date, as stored in a date column. */
  datatype Date = Date(year: int, month: nat, day: nat)

  type Hour = h: nat | h < 24
  type Minute = m: nat | m < 60
  type Second = s: nat | s < 60
  type Microsecond = u: nat | u < 1000000

  /** A wall-clock time of day, as stored in a time column, down to the microsecond. */
  datatype TimeOfDay = TimeOfDay(hour: Hour, minute: Minute, second: Second, microsecond: Microsecond)

  /** A point in time stamped by the framework's clock; only compared for equality. */
  type Timestamp = nat
}
