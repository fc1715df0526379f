/** Outcome types for the operations that Python lets fail with an exception. */
module Wrappers {

  datatype Option<+T> = None | Some(value: T)

  /** `Failure(message)` carries the text that `str(e)` gives for the raised exception. */
  datatype Result<+R> = Success(value: R) | Failure(message: string)

  /** A step that either completes or raises. */
  datatype Outcome = Pass | Fail(message: string)
}
