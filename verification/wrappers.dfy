/** Failure-carrying datatypes shared by the rest of the model. */
module Wrappers {

  /** A value that may be missing: Rust's `Option`. */
  datatype Option<+T> = None | Some(value: T)

  /** A value or an error: Rust's `Result<T, E>`. */
  datatype Result<+T, +E> = Ok(value: T) | Err(error: E)

  /** A step that either passes or fails with an error: Rust's `Result<(), E>`. */
  datatype Outcome<+E> = Pass | Fail(error: E)

  /** The panic message of `Option::unwrap()` on `None`. */
  const UnwrapNone := "called `Option::unwrap()` on a `None` value"
}
