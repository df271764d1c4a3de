/** Option and Result values: the model's stand-in for JavaScript's `undefined`/`null`
    and for thrown errors. */
module Wrappers {

  datatype Option<+T> = None | Some(value: T)

  datatype Result<+R, +E> = Success(value: R) | Failure(error: E)
}
