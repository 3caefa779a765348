/** Optional values and error returns, used where the JavaScript returns `null`/`undefined`
    or throws. */
module Wrappers {

  datatype Option<+T> = None | Some(value: T)

  datatype Result<+T, +E> = Ok(value: T) | Err(error: E)
}
