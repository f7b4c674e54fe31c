/** Option and Result, shared by the modules of the model. */
module Wrappers {

  datatype Option<+T> = None | Some(value: T)

  /** A value, or the error the source would have raised instead of returning. */
  datatype Result<+T, +E> = Ok(value: T) | Err(error: E)
}
