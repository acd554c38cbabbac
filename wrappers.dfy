/** Option and Result, used for JavaScript's `undefined` and for thrown errors. */
module Wrappers {

  /** A value that may be absent, as `T | undefined` is in the server code. */
  datatype Option<+T> = None | Some(value: T)

  /** The outcome of an operation that can throw: either its value or the error thrown. */
  datatype Result<+R, +E> = Success(value: R) | Failure(error: E)
}
