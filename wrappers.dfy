/** Optional values and results with an error, used for lookups and for the
    failures that the formatting layer propagates to its caller. */
module Wrappers {

  datatype Option<+T> = None | Some(value: T)

  datatype Result<+T, +E> = Ok(value: T) | Err(error: E)
}
