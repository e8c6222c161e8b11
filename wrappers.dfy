/** Failure-compatible wrappers used across the model: the Python code signals
    absence with `None` and failure with exceptions; here both become values. */
module Wrappers {

  datatype Option<+T> = None | Some(value: T)

  datatype Result<+R, +E> = Ok(value: R) | Err(error: E)
}
