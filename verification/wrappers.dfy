/** The absent-or-present value used wherever the JavaScript code returns `null`
    or reads `undefined`, and the value-or-exception outcome of a call that can throw. */
module Wrappers {

  datatype Option<+T> = None | Some(value: T)

  datatype Result<+R, +E> = Success(value: R) | Failure(error: E)
}
