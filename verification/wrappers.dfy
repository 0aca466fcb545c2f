/** Rust's `Option` and `Result`, as the three containers use them. */
module Wrappers {

  /** `Option<T>`: a value that may be absent. */
  datatype Option<+T> = None | Some(value: T)

  /** `Result<T, E>`: a success value or an error value. */
  datatype Result<+T, +E> = Ok(value: T) | Err(error: E)
}
