/** Failure-compatible results used for the operations that throw in the source. */
module Wrappers {

  datatype Option<+T> = None | Some(value: T)

  datatype Result<+R, +E> = Success(value: R) | Failure(error: E)

  /** Outcome of a void operation that may throw. */
  datatype Outcome<+E> = Pass | Fail(error: E)
}
