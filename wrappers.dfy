/** Option, Result and Outcome: how the model returns "not found" and the
    errors the store raises, instead of null and exceptions. */
module Wrappers {

  /** A value or nothing (the source's `null` return). */
  datatype Option<+T> = None | Some(value: T)

  /** A value or an error (an operation that returns something or throws). */
  datatype Result<+T, +E> = Success(value: T) | Failure(error: E)

  /** Success without a value or an error (an operation returning `Task` that may throw). */
  datatype Outcome<+E> = Pass | Fail(error: E)
}
