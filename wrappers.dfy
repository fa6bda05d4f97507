/** Optional values and results, the shapes the crate's `Option` and `Result` returns take. */
module Wrappers {
  datatype Option<T> = None | Some(value: T)

  datatype Result<T, E> = Ok(value: T) | Err(error: E)
}
