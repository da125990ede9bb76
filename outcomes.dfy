/** Values standing in for Java's nullable references and thrown exceptions. */
module Outcomes {

  /** A Java reference that may be null: `None` is null. */
  datatype Option<T> = None | Some(value: T)

  /** The exceptions the container throws. */
  datatype Error =
    | IllegalArgument   // IllegalArgumentException: a null item was passed to `add`
    | IndexOutOfBounds  // IndexOutOfBoundsException: a position outside [0, length)

  /** A call that returns a value or throws. */
  datatype Result<T> = Ok(value: T) | Err(error: Error)

  /** A call that returns nothing or throws. */
  datatype Outcome = Pass | Fail(error: Error)
}
