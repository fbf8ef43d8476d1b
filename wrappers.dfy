/** Option and Result types used for absent values (null pointers) and for
 *  the error reports and exceptions of the modelled code. */
module Wrappers {
  datatype Option<T> = None | Some(value: T)

  datatype Result<T, E> = Ok(value: T) | Err(error: E)
}
