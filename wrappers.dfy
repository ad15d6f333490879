/** Optional values and results with an error message, used for a missing file and for a
    replacement template that the regular-expression engine refuses. */
module Wrappers {

  datatype Option<+T> = None | Some(value: T)

  datatype Result<+T> = Ok(value: T) | Err(message: string)
}
