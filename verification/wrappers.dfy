/** Optional values and success-or-error results shared by the other modules. */
module Wrappers {

  /** A value that may be absent: a null pointer, a blocked step. */
  datatype Option<+T> = None | Some(value: T)

  /** A value, or the error that was thrown instead of returning it. */
  datatype Result<+R, +E> = Success(value: R) | Failure(error: E)
}
