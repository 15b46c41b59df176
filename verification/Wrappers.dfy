/** Option and Result, in place of the None returns and the exceptions of the Python sources. */
module Wrappers {
  datatype Option<+T> = None | Some(value: T)

  datatype Result<+T, +E> = Ok(value: T) | Err(error: E)
}
