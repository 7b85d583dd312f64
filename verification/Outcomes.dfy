/** The two result shapes used across the model: a lookup that may find nothing,
    and an operation that may return an error. */
module Outcomes {
  datatype Option<+T> = None | Some(value: T)

  datatype Result<+T, +E> = Ok(value: T) | Err(error: E)
}
