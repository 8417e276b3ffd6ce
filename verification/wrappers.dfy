/** Failure-carrying results for the Java exceptions the modelled code throws. */
module Wrappers {

  /** The exception classes the modelled code raises. */
  datatype Error =
    | IllegalState
    | IllegalArgument
    | IndexOutOfBounds
    | NullPointer
    | NegativeArraySize

  datatype Option<+T> = None | Some(value: T)

  /** A value or the exception that replaced it. */
  datatype Result<+T> = Ok(value: T) | Err(error: Error) {
    predicate IsFailure() { Err? }

    function PropagateFailure<U>(): Result<U>
      requires Err?
    {
      Err(error)
    }

    function Extract(): T
      requires Ok?
    {
      value
    }
  }
}
