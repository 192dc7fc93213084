/** Option and Result values used across the model for Python's `None`
    and for the error branches the service turns into values. */
module Wrappers {

  datatype Option<+T> = None | Some(value: T)

  datatype Result<+T, +E> = Ok(value: T) | Err(error: E)
}
