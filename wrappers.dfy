/** Option and Result values shared by the catalog modules. */
module Wrappers {

  datatype Option<+T> = None | Some(value: T)

  /** The outcome of a service operation: the record it produced or the reason it refused. */
  datatype Result<+R, +E> = Success(value: R) | Failure(error: E)
}
