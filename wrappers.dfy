/** Optional values and results with an error, for the operations of the
    programs that raise an exception or report a failure. */
module Wrappers {
  datatype Option<T> = None | Some(value: T)

  datatype Result<T, E> = Success(value: T) | Failure(error: E)
}
