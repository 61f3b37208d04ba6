/** Java's null and its two exceptions that the savings core can raise, as values. */
module Basics {

  /** A Java reference that may be null. */
  datatype Option<+T> = None | Some(value: T)

  /** The unchecked exceptions the modelled code throws. */
  datatype Error =
    | ArithmeticException   // BigDecimal division by zero
    | NullPointerException  // Objects.requireNonNull, or a method called on null

  /** A call either returns a value or throws. */
  datatype Result<+T> = Ok(value: T) | Err(error: Error)
}
