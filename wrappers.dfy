/** Option and result types for the error paths of the model. */
module Wrappers {

  datatype Option<+T> = None | Some(value: T)

  /** The value of an operation that either succeeds or raises. */
  datatype Result<+R, +E> = Success(value: R) | Failure(error: E)

  /** The outcome of a state-changing operation that either completes or raises. */
  datatype Outcome<+E> = Pass | Fail(error: E)
}
