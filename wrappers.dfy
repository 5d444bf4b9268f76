/** Option and Result, for the script's missing values and its aborting errors. */
module Wrappers {

  datatype Option<T> = None | Some(value: T)

  datatype Result<T, E> = Ok(value: T) | Err(error: E)
}
