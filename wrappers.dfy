/** Option and Result, the two failure-compatible wrappers the model uses. */
module Wrappers {

  /** An optional value: None for JavaScript's `undefined` or a failed read. */
  datatype Option<+T> = None | Some(value: T)

  /** A computation that either returns a value or raises an error. */
  datatype Result<+R, +E> = Success(value: R) | Failure(error: E)
}
