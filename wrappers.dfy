/** Option and Result: the model's stand-ins for JavaScript's `null`/`undefined`
    and for a thrown exception. */
module Wrappers {

  datatype Option<+T> = None | Some(value: T)

  datatype Result<+R, +E> = Success(value: R) | Failure(error: E)
}
