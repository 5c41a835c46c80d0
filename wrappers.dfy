/** Optional values (JavaScript's `null`/`undefined` against a value) and
    results with an error case. */
module Wrappers {

  datatype Option<+T> = None | Some(value: T)

  datatype Result<+R, +E> = Success(value: R) | Failure(error: E)
}
