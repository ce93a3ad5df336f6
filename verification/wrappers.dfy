/** Rust's `Option<T>` and `Result<T, E>`, as the two containers use them. */
module Wrappers {

  datatype Option<+T> = None | Some(value: T)

  datatype Result<+R, +E> = Ok(value: R) | Err(error: E)
}
