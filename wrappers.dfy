/** Failure-compatible wrappers shared by the other modules. */
module Wrappers {

  /** An optional value: the model's `undefined`. */
  datatype Option<+T> = None | Some(value: T)

  /** A value or the error the source would raise instead of returning. */
  datatype Result<+T, +E> = Ok(value: T) | Err(error: E)
}
