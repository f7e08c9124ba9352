/** Option and Result, the shapes used for the source's `Option`, `Result`, thrown errors and panics. */
module Wrappers {

  datatype Option<+T> = None | Some(value: T)

  datatype Result<+R, +E> = Ok(value: R) | Err(error: E)
}
