/** Optional values, results and outcomes used by the task store model. */
module Wrappers {

  datatype Option<+T> = None | Some(value: T)

  /** A computation that either produced a value or failed with an error. */
  datatype Result<+R, +E> = Success(value: R) | Failure(error: E)

  /** A computation run for its effect that either completed or failed with an error. */
  datatype Outcome<+E> = Pass | Fail(error: E)
}
