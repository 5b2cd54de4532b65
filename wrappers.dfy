/** Option and Result values for operations that can fail. */
module Wrappers {

  datatype Option<+T> = None | Some(value: T)

  datatype Result<+R, +E> = Ok(value: R) | Err(error: E)

  /** A result that carries no value on success. */
  datatype Outcome<+E> = Pass | Fail(error: E)
}
