/** The two result shapes used throughout: an optional value, and a value or an error. */
module Outcome {
  datatype Option<+T> = None | Some(value: T)

  datatype Result<+T> = Ok(value: T) | Err(reason: string)
}
