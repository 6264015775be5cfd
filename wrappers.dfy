/** Option and Result: the outcome types used across the model. A Python call
    that may raise is modelled as a function or method returning a Result. */
module Wrappers {

  datatype Option<+T> = None | Some(value: T)

  datatype Result<+R, +E> = Success(value: R) | Failure(error: E)
}
