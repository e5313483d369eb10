/** Optional values, and outcomes that carry either a value or an error
    (Python's raised exceptions become the `Failure` case). */
module Wrappers {

  datatype Option<+T> = None | Some(value: T)

  datatype Result<+T, +E> = Success(value: T) | Failure(error: E)
}
