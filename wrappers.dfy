/** Option and Result values shared by the other modules. */
module Wrappers {

  datatype Option<+T> = None | Some(value: T)

  /** The value a Python call returns, or the exception that escapes it. */
  datatype Result<+T, +E> = Ok(value: T) | Err(error: E)
}
