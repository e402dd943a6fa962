/** The two failure-carrying datatypes shared by the modules of this project. */
module Wrappers {

  /** A value that may be absent, as Python's `Optional`. */
  datatype Option<+T> = None | Some(value: T)

  /** A value, or the exception that was raised instead of it. */
  datatype Result<+T, +E> = Ok(value: T) | Err(error: E)
}
