/** Failure-carrying values shared by every module of the model. */
module Wrappers {

  /** A value that may be absent (the source's `undefined` / empty query result). */
  datatype Option<+T> = None | Some(value: T)

  /** Either a value or the error the source would have thrown. */
  datatype Result<+T, +E> = Ok(value: T) | Err(error: E)

  /** Which behaviour a member models where the code and its evident intent part ways:
      the code as it is written, or the behaviour its authors evidently intended. */
  datatype Mode = AsWritten | Intended
}
