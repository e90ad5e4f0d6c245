/** Failure-compatible result types used for the exceptions the library throws. */
module Wrappers {

  /** The exception kinds the modelled code raises. */
  datatype Error =
    | ArgumentOutOfRange   // System.ArgumentOutOfRangeException
    | ArgumentNull         // System.ArgumentNullException
    | Argument             // System.ArgumentException
    | IndexOutOfRange      // System.IndexOutOfRangeException
    | InvalidOperation     // System.InvalidOperationException
    | NullReference        // System.NullReferenceException

  datatype Option<+T> = None | Some(value: T)

  /** A call that either returns `value` or throws `error`. */
  datatype Result<+T> = Ok(value: T) | Err(error: Error) {
    predicate IsFailure() { Err? }
    function PropagateFailure<U>(): Result<U> requires Err? { Err(error) }
    function Extract(): T requires Ok? { value }
  }

  /** A call without a return value that either completes or throws `error`. */
  datatype Outcome = Done | Throws(error: Error) {
    predicate IsFailure() { Throws? }
    function PropagateFailure(): Outcome requires Throws? { this }
  }
}
