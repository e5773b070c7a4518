/** Option, Result and Outcome: the optional values and error returns of the model.
    A Java reference that may be null is an Option; a call that may throw returns a Result. */
module Wrappers {

  datatype Option<+T> = None | Some(value: T)

  datatype Result<+T, +E> = Success(value: T) | Failure(error: E)

  /** A check that either passes or fails with a reason, as a `void` method that may throw. */
  datatype Outcome<+E> = Pass | Fail(error: E)
}
