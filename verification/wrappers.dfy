/** The optional value and the success-or-error outcome used by the whole model. */
module Wrappers {

  /** A value that may be missing; `None` stands for Go's nil error or "no taking". */
  datatype Option<+T> = None | Some(value: T)

  /** The result of an operation that returns either a value or an error. */
  datatype Result<+R, +E> = Ok(value: R) | Err(error: E)
}
