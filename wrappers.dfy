/** Failure-carrying results used in place of the exceptions the library throws. */
module Wrappers {

  datatype Option<+T> = None | Some(value: T)

  /** A value, or the error that the operation threw instead of returning it. */
  datatype Result<+R, +E> = Success(value: R) | Failure(error: E)

  /** The outcome of an operation that returns nothing (`void`) or throws. */
  datatype Outcome<+E> = Pass | Fail(error: E)
}
