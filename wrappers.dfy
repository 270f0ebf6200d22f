/** Small failure-carrying datatypes used across the model. */
module Wrappers {

  /** Absence of a value, standing for a null pointer or a missing entry. */
  datatype Option<+T> = None | Some(value: T)

  /** A value or an error kind. */
  datatype Result<+T, +E> = Ok(value: T) | Err(error: E)
}
