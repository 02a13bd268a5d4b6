/** Option and Result, the shapes of Rust's Option<T> and anyhow::Result<T>. */
module Wrappers {

  datatype Option<+T> = None | Some(value: T)

  datatype Result<+T, +E> = Success(value: T) | Failure(error: E)
}
