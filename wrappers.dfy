/** The Option and Result types shared by the route modules. */
module Wrappers {

  datatype Option<+T> = None | Some(value: T)

  /** The outcome of a request handler: a success payload or an error. */
  datatype Result<+R, +E> = Success(value: R) | Failure(error: E)
}
