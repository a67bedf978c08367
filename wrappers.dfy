/** Optional values and success-or-failure results, used for Java's nullable
    references, Optional<T> and thrown exceptions. */
module Wrappers {

  datatype Option<+T> = None | Some(value: T)

  datatype Result<+T, +E> = Ok(value: T) | Err(error: E)
}
