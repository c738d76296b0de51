/** Result types shared by the models: Go's comma-ok pairs, nil pointers and errors. */
module Wrappers {
  datatype Option<+T> = None | Some(value: T)

  datatype Result<+T, +E> = Ok(value: T) | Err(error: E)
}
