/** A value or the reason it could not be produced; a value or nothing. */
module Outcome {
  datatype Result<T, E> = Ok(value: T) | Err(error: E)

  datatype Option<T> = None | Some(value: T)
}
