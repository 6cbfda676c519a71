/** The Option and Result types shared by the other modules. */
module Wrappers {

  /** A value that may be absent: Rust's `Option`, Python's "raised instead of returning". */
  datatype Option<+T> = None | Some(value: T)

  /** Rust's `Result`: a value or an error. */
  datatype Result<+T, +E> = Ok(value: T) | Err(error: E)
}
