/** The Option and Result shapes used for Python's `None` returns and raised exceptions. */
module Wrappers {

  datatype Option<+T> = None | Some(value: T)

  /** A value, or the message of the exception that was raised instead. */
  datatype Result<+T> = Ok(value: T) | Raised(message: string)
}
