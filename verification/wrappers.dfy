/** Optional values and results shared by the editor model. */
module Wrappers {

  /** A value that may be absent; stands for the source's `null` returns. */
  datatype Option<+T> = None | Some(value: T)

  /** A value or an error; stands for a thrown and caught exception. */
  datatype Result<+R, +E> = Success(value: R) | Failure(error: E)
}
