/** Option and Result, for "no value yet" sentinels and for the exceptions the selector raises. */
module Wrappers {
  datatype Option<T> = None | Some(value: T)

  datatype Result<T, E> = Ok(value: T) | Err(error: E)
}
