/** Optional values and results with a failure value, used wherever the server's
    JavaScript has `undefined`, `null` or a thrown error. */
module Wrappers {
  datatype Option<+T> = None | Some(value: T)

  datatype Result<+T, +E> = Success(value: T) | Failure(error: E)
}
