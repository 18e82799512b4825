/** Optional values and value-or-error results. */
module Wrappers {

  /** A value that may be absent. */
  datatype Option<+T> = None | Some(value: T)

  /** The outcome of a computation that may throw: a value, or the thrown message. */
  datatype Result<+R, +E> = Success(value: R) | Failure(error: E)
}
