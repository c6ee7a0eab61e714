/** Option and Result, the shapes used for JavaScript's `null` and for thrown errors. */
module Wrappers {

  datatype Option<+T> = None | Some(value: T)

  /** A computation that either returns a value or throws `error`. */
  datatype Result<+R, +E> = Success(value: R) | Failure(error: E)
}
