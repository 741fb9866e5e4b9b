/** The two result types used across the model. */
module Wrappers {

  /** A value that may be absent: Go's nil pointers and "no row" answers. */
  datatype Option<+T> = None | Some(value: T)

  /** Go's (value, error) pairs. */
  datatype Result<+T> = Ok(value: T) | Err(message: string)
}
