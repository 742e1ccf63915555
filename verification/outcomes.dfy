/** Failure-carrying results shared by both containers.  The error kinds are
    the three Java exception classes the containers throw. */
module Outcomes {

  /** A slot that may hold a value or be empty (a Java `null` slot). */
  datatype Option<T> = None | Some(value: T)

  datatype Error =
    | NoSuchElement     // empty container, or an iterator advanced past its end
    | IndexOutOfBounds  // positional access outside the permitted range
    | IllegalArgument   // negative initial capacity

  /** The outcome of an operation that may throw instead of returning. */
  datatype Result<T> = Ok(value: T) | Err(error: Error)
}
