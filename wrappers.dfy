/** Option and Result datatypes used for values that may be missing and for
    operations that raise an exception in the modelled program. */
module Wrappers {

  datatype Option<+T> = None | Some(value: T)

  datatype Result<+T, +E> = Ok(value: T) | Err(error: E)
}
