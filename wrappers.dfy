/** Option and Result, used for optional record fields and for the
    exceptions the modelled code throws. */
module Wrappers {

  datatype Option<+T> = None | Some(value: T)

  datatype Result<+R, +E> = Success(value: R) | Failure(error: E)
}
