/** The error kinds the board raises, and the result wrappers that carry them. */
module Errors {
  /** BoardOutException, RepeatedShotException and ShipLayoutException (exception.py). */
  datatype Error = BoardOut | RepeatedShot | ShipLayout

  /** The outcome of an operation that either returns a value or raises one of the errors above. */
  datatype Result<T> = Ok(value: T) | Err(error: Error)

  /** Python's `None` or a value. */
  datatype Option<T> = None | Some(value: T)
}
