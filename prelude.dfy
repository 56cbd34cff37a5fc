/** Option and Result, the two failure-carrying wrappers the model uses. */
module Prelude {

  datatype Option<+T> = None | Some(value: T)

  /** A value, or the error a thrown exception would carry. */
  datatype Result<+T, +E> = Ok(value: T) | Err(error: E)
}
