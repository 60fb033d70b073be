/** Failure-carrying results shared by the loading, defaulting and pivoting
    steps. */
module Wrappers {

  datatype Option<+T> = None | Some(value: T)

  datatype Result<+T, +E> = Ok(value: T) | Err(error: E)
}
