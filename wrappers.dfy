/** Failure-carrying values used by every layer of the model. */
module Wrappers {

  /** A value that may be absent: an optional field, a null column, a lookup miss. */
  datatype Option<+T> = None | Some(value: T)

  /** The outcome of an operation that returns a value or raises an error. */
  datatype Result<+T, +E> = Success(value: T) | Failure(error: E)

  /** The outcome of an operation that returns nothing or raises an error. */
  datatype Outcome<+E> = Pass | Fail(error: E)
}
