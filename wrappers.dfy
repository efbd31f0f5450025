/** Failure-carrying wrappers shared by the other modules. */
module Wrappers {

  /** A value that may be absent; stands for Python's `None` where a field is optional. */
  datatype Option<+T> = None | Some(value: T)

  /** The outcome of an operation that may raise. */
  datatype Result<+T, +E> = Ok(value: T) | Err(error: E)
}
