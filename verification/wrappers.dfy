/** Optional values, for a file that may not open, and results, for the
    NULL pointer `LoadBitmapFile` returns on failure. */
module Wrappers {

  datatype Option<T> = None | Some(value: T)

  datatype Result<T, E> = Success(value: T) | Failure(error: E)
}
