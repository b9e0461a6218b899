/** Optional values and success-or-error results shared by the other modules. */
module Wrappers {

  /** A value that may be absent: a missing form field, a field a stored
      document does not carry, or a parse that failed. */
  datatype Option<+T> = None | Some(value: T)

  /** The outcome of a check that either accepts with a value or rejects
      with a reason. */
  datatype Result<+T, +E> = Success(value: T) | Failure(error: E)
}
