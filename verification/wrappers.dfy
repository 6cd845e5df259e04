/** Failure-compatible wrappers shared by the two models: Python's optional
    arguments and raised errors, Rust's `Option` and `Result`. */
module Wrappers {

  /** Rust's `Option<T>`; also Python's `Optional[...]` argument. */
  datatype Option<+T> = None | Some(value: T)

  /** Rust's `Result<T, E>`; also a Python call that either returns or raises. */
  datatype Result<+T, +E> = Success(value: T) | Failure(error: E)
}
