/** Null values (SQL NULL, pandas NaN/None) and error returns. */
module Wrappers {

  datatype Option<T> = None | Some(value: T)

  datatype Result<T, E> = Ok(value: T) | Err(error: E)
}
