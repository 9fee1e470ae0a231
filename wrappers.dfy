/** Failure-carrying values shared by the whole model. */
module Wrappers {

  /** A value that may be missing (Rust's `Option`). */
  datatype Option<+T> = None | Some(value: T)

  /** Rust's `Result<T, ()>`: the error carries no information. */
  datatype Result<+T> = Ok(value: T) | Err
}
