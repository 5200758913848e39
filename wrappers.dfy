/** Small failure-compatible wrappers shared by the modules of this project. */
module Wrappers {

  /** A present or absent value, as in an entry of a sparse vector. */
  datatype Option<+T> = None | Some(value: T)

  /** A value or an error, used where the source raises or aborts. */
  datatype Result<+R, +E> = Success(value: R) | Failure(error: E)
}
