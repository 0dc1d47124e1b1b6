/** Failure-compatible wrappers shared by every module of the model. */
module Wrappers {

  /** An optional value, as Rust's `Option`. */
  datatype Option<+T> = None | Some(value: T)

  /** A value or an error, as Rust's `Result`. */
  datatype Result<+T, +E> = Success(value: T) | Failure(error: E)
}
