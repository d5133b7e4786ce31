/** The `Option` and `Result` datatypes shared by the other modules. */
module Wrappers {

  /** A value that may be absent: Python's `None` versus a present value. */
  datatype Option<+T> = None | Some(value: T)

  /** The outcome of a check: a value on success, or the reason it was refused. */
  datatype Result<+T, +E> = Success(value: T) | Failure(error: E)
}
