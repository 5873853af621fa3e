/** Failure-carrying wrappers shared by every module of the model. */
module Wrappers {

  /** Rust's `Option<T>`. */
  datatype Option<+T> = None | Some(value: T)

  /** Rust's `Result<T, E>`; `Result<(), E>` is written with Dafny's unit type `()`. */
  datatype Result<+T, +E> = Ok(value: T) | Err(error: E)

  /** The outcome of a Rust expression that may panic, such as a byte slice
      `&s[..n]` whose end is not a character boundary. */
  datatype Outcome<+T> = Returns(value: T) | Panics
}
