/** Failure-carrying results shared by the other modules. */
module Wrappers {

  /** A value that may be absent (JavaScript's `undefined`). */
  datatype Option<+T> = None | Some(value: T)

  /** The outcome of a helper that either returns or throws. */
  datatype Result<+R, +E> = Success(value: R) | Failure(error: E)
}
