/** Optional values (a Java reference that may be null) and the outcome of an
    operation that may throw one of the service's checked errors. */
module Wrappers {

  datatype Option<+T> = None | Some(value: T)

  datatype Result<+T, +E> = Success(value: T) | Failure(error: E)
}
