/** Optional values and pass/fail outcomes shared by the other modules. */
module Wrappers {

  /** Python's `None` or a value. */
  datatype Option<+T> = None | Some(value: T)

  /** A call that returns a value or raises the given error. */
  datatype Result<+T, +E> = Success(value: T) | Failure(error: E)

  /** A call that returns normally or raises the given error. */
  datatype Outcome<+E> = Pass | Fail(error: E)
}
