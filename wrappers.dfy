/** Option and Result, used for Python's None and for the exceptions the model keeps. */
module Wrappers {

  datatype Option<T> = None | Some(value: T)

  datatype Result<T, E> = Ok(value: T) | Err(error: E)
}
