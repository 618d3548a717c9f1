/** Option and Result: the error paths of the modelled scripts (Python exceptions) become values. */
module Wrappers {

  datatype Option<+T> = None | Some(value: T)

  datatype Result<+T, +E> = Ok(value: T) | Err(error: E)
}
