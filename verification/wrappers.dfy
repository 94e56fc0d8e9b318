/** Optional values and results with an error, the two shapes the broker's
    Python code expresses with `None` and with a raised exception. */
module Wrappers {

  datatype Option<+T> = None | Some(value: T)

  datatype Result<+T, +E> = Ok(value: T) | Err(error: E)
}
