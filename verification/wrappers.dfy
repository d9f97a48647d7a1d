/** Failure-carrying datatypes shared by the other modules. */
module Wrappers {

  /** A value that may be absent. */
  datatype Option<+T> = None | Some(value: T)

  /** Either a computed value or the error the script would throw instead. */
  datatype Result<+R, +E> = Success(value: R) | Failure(error: E)
}
