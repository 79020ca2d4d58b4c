/** Failure-carrying result types shared by the whole model. */
module Wrappers {

  /** A value that may be absent: a Python `None` or a caught exception. */
  datatype Option<+T> = None | Some(value: T)

  /** The `(ok, message)` pair the validators return, with the message
      replaced by a structured error. */
  datatype Outcome<+E> = Pass | Fail(error: E)

  /** A computation that either yields a value or raises an error. */
  datatype Result<+T, +E> = Ok(value: T) | Err(error: E)
}
