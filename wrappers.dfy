/** Small failure-carrying datatypes used across the model. */
module Wrappers {

  /** A value that may be missing; stands for Go's `(v, err)` when only `err == nil` matters. */
  datatype Option<+T> = None | Some(value: T)

  /** A value or an error; stands for Go's `(v, err)` when the error is propagated. */
  datatype Result<+T, +E> = Ok(value: T) | Err(error: E)
}
