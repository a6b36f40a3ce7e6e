/** Option and Result, used for values that may be absent and for the
    exceptions `genesource.py` raises. */
module Wrappers {

  datatype Option<+T> = None | Some(value: T)

  datatype Result<+T, +E> = Ok(value: T) | Err(error: E)
}
