/** Option and Result, the shapes in which the Go code's `nil`-or-value and
    value-or-`error` returns are modelled. */
module Wrappers {

  datatype Option<+T> = None | Some(value: T)

  datatype Result<+T, +E> = Success(value: T) | Failure(error: E)
}
