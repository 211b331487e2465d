/** Failure-carrying datatypes shared by the whole model.
    - Option<T> stands for Rust's `Option<T>`.
    - Result<T> stands for `Result<T, String>` (and `std::io::Result<T>`,
      whose error is kept as its message).
    - Outcome is the reply of an environment action that returns no value
      (a write, a flush, a directory creation). */
module Wrappers {

  datatype Option<+T> = None | Some(value: T)

  datatype Result<+T> = Ok(value: T) | Err(error: string)

  datatype Outcome = Pass | Fail(error: string)
}
