/** Failure conditions of the state machine operations, and the result types
    that carry them instead of Java exceptions. */
module Errors {

  /** NoSuchElementException ("not found") versus IllegalArgumentException
      raised for a vertex or transition that is already there. */
  datatype Error = NotFound | AlreadyExists

  /** The outcome of an operation that returns a value. */
  datatype Result<+T> = Success(value: T) | Failure(error: Error)

  /** The outcome of a void operation. */
  datatype Outcome = Pass | Fail(error: Error)
}
