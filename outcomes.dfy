/**
 * The library reports failures by throwing standard exceptions. The model
 * returns them as values: an `Error` carries the exception class and the
 * text its what() would return.
 */
module Outcomes {

  /** std::invalid_argument and std::out_of_range, with their message. */
  datatype Error = InvalidArgument(what: string) | OutOfRange(what: string)

  datatype Option<+T> = None | Some(value: T)

  /** A value, or the exception thrown instead of returning it. */
  datatype Result<+T> = Ok(value: T) | Err(error: Error) {
    predicate IsFailure() { Err? }
    function PropagateFailure<U>(): Result<U>
      requires Err?
    {
      Err(error)
    }
    function Extract(): T
      requires Ok?
    {
      value
    }
  }

  /** A call that returns nothing, or the exception it throws. */
  datatype Outcome = Pass | Fail(error: Error)
}
