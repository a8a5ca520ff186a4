/** Optional values and results: the model's stand-ins for `undefined` and
    for exceptions. */
module Wrappers {

  /** A value that may be absent, or a library call that may throw. */
  datatype Option<+T> = None | Some(value: T)

  /** The value an operation returns, or the error it throws. */
  datatype Result<+R, +E> = Success(value: R) | Failure(error: E)
}
