/** Option, Result and Outcome: the nullable values, caught exceptions and error returns of the source. */
module Wrappers {

  /** A value that may be absent: a SQL NULL, a Java null reference, a missing row. */
  datatype Option<+T> = None | Some(value: T)

  /** A computation that either yields a value or is rejected with an error. */
  datatype Result<+R, +E> = Success(value: R) | Failure(error: E)

  /** A computation that yields nothing but may fail with an error. */
  datatype Outcome<+E> = Pass | Fail(error: E)
}
