/** Option and Result values, standing for Go's nil pointers, (value, ok)
    pairs and error returns. */
module Wrappers {

  datatype Option<+T> = None | Some(value: T)

  datatype Result<+R, +E> = Success(value: R) | Failure(error: E)
}
