/** Failure-carrying datatypes shared by the whole model: `Option` stands for
    Rust's `Option`, `Result` for Rust's `Result` (and anyhow's). */
module Wrappers {

  datatype Option<+T> = None | Some(value: T)

  datatype Result<+T, +E> = Success(value: T) | Failure(error: E)
}
