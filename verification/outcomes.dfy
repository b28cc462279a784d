/** Optional values and results with an error, used wherever the program
    either has no value to give or raises an exception. */
module Outcomes {

  datatype Option<+T> = None | Some(value: T)

  datatype Result<+T, +E> = Success(value: T) | Failure(error: E)
}
