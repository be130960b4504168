/** Failure-carrying datatypes standing in for the Python exceptions of the tool. */
module Wrappers {

  /** Some value, or nothing (a JSON line that does not decode). */
  datatype Option<+T> = None | Some(value: T)

  /** A value, or the error the Python code would raise instead of returning. */
  datatype Result<+R, +E> = Success(value: R) | Failure(error: E)

  /** Completion without a value, or the error that was raised. */
  datatype Outcome<+E> = Pass | Fail(error: E)
}
