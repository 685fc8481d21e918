/** Optional values and results with an error, used for the revisions a
    configuration may leave out and for lookups that can fail. */
module Wrappers {

  datatype Option<+T> = None | Some(value: T)

  datatype Result<+R, +E> = Success(value: R) | Failure(error: E)
}
