/** Option and Result, used for values that may be missing and for calls that may raise. */
module Wrappers {

  /** A value that may be absent (Python's `None`). */
  datatype Option<+T> = None | Some(value: T)

  /** The outcome of a call that either returns a value or raises an exception
      whose message is `error`. */
  datatype Result<+T, +E> = Success(value: T) | Failure(error: E)
}
