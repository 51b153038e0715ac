/** Failure-carrying values shared by the rest of the model. */
module Wrappers {

  /** A value that may be missing, as Rust's `Option`. */
  datatype Option<+T> = None | Some(value: T)

  /** The outcome of a fallible call, as Rust's `Result`. */
  datatype Result<+T, +E> = Ok(value: T) | Err(error: E)
}
