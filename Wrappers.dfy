/** Failure values shared by every component: each Java exception the core can
    throw becomes an `Err` carrying the exception's kind. */
module Wrappers {

  /** The exception kinds the core throws. */
  datatype Error =
    | IllegalArgument   // IllegalArgumentException: bad index, shape mismatch, singular matrix
    | IndexOutOfBounds  // ArrayIndexOutOfBoundsException: an unchecked array access fails
    | NoSuchElement     // NoSuchElementException: the cursor is exhausted
    | Arithmetic        // ArithmeticException: integer division by zero

  datatype Result<+T> = Ok(value: T) | Err(error: Error) {
    predicate IsFailure() { Err? }

    function PropagateFailure<U>(): Result<U>
      requires Err?
    {
      Err(error)
    }

    function Extract(): T
      requires Ok?
    {
      value
    }
  }

  /** The outcome of an operation that returns nothing (a Java `void` method). */
  datatype Outcome = Pass | Fail(error: Error)
}
