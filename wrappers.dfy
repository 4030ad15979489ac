/** Option and Result values used across the model in place of Python's
    `None` and of exceptions. */
module Wrappers {

  /** A value that may be absent (Python's `None`). */
  datatype Option<+T> = None | Some(value: T)

  /** Either a value or the message of the exception that replaced it. */
  datatype Result<+T> = Ok(value: T) | Err(message: string)
}
