/** The two shapes a helper's answer can take: `null` or a value, and a value or a thrown error. */
module Wrappers {

  /** A JavaScript value that may be `null`. */
  datatype Option<+T> = None | Some(value: T)

  /** A computation that either returns a value or throws. */
  datatype Result<+R, +E> = Success(value: R) | Failure(error: E)
}
