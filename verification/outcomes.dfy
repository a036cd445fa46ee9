/** Optional values and results with an error, used wherever the Go code
    returns `(value, error)`, reports `ok` from a map lookup, or may panic. */
module Outcomes {

  datatype Option<+T> = None | Some(value: T)

  datatype Result<+T, +E> = Success(value: T) | Failure(error: E)
}
