/** Optional values and success-or-failure results shared by every module. */
module Wrappers {

  /** A value that may be missing. */
  datatype Option<+T> = None | Some(value: T)

  /** Either a value or the reason there is none. */
  datatype Result<+T, +E> = Success(value: T) | Failure(error: E)
}
