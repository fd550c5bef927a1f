/** Small shared datatypes. */
module Wrappers {

  /** An optional value: the result of a partial operation. */
  datatype Option<+T> = None | Some(value: T)

  /** A value or an error. */
  datatype Result<+T, +E> = Ok(value: T) | Err(error: E)
}
