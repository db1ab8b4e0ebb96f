/** Optional values and results, used where the original code returns a nullable
    pointer or stops on a failed assertion. */
module Wrappers {

  datatype Option<+T> = None | Some(value: T)

  datatype Result<+T, +E> = Success(value: T) | Failure(error: E)
}
