/** Failure-compatible values for the two ways a path operation can come back empty-handed:
    JavaScript's `undefined` (an `Option`) and a thrown exception (a `Result`). */
module Wrappers {

  /** `T | undefined` */
  datatype Option<+T> = None | Some(value: T)

  /** A value, or the message of the exception the operation throws. */
  datatype Result<+T> = Ok(value: T) | Failure(error: string)
}
