/** Failure-compatible result types shared by the models. */
module Wrappers {

  datatype Option<+T> = None | Some(value: T)

  /** The source's thrown errors become `Err`. */
  datatype Result<+T, +E> = Ok(value: T) | Err(error: E)
}
