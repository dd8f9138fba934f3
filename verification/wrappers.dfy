/** Option and Result datatypes shared by both stores. */
module Wrappers {

  /** A value that may be absent; `None` plays the role of Python's `None`. */
  datatype Option<+T> = None | Some(value: T)

  /** The outcome of an operation that may raise: either the new value or the error raised. */
  datatype Result<+T, +E> = Ok(value: T) | Err(error: E)
}
