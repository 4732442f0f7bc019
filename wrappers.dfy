/** Optional values and results with an error, used for nullable cells and
    for the pipeline's early exit on a failed validation. */
module Wrappers {

  datatype Option<+T> = None | Some(value: T)

  datatype Result<+R, +E> = Success(value: R) | Failure(error: E)
}
