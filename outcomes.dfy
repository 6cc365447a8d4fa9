/** Results of operations that can fail.  The C# code signals failure by
  * throwing; the model returns the failure as a value and names the kind
  * of exception the source throws. */
module Outcomes {

  /** The exception kinds thrown by the modelled code.  `AssertionFailed`
    * stands for a failed Unity `Assert.IsTrue`. */
  datatype Failure =
    | AssertionFailed
    | InvalidOperation
    | ArgumentOutOfRange
    | Argument
    | ArgumentNull
    | NullReference
    | IndexOutOfRange
    | Overflow
    | KeyNotFound
    | DivideByZero
    | NotImplemented

  datatype Option<T> = None | Some(value: T)

  datatype Result<T> = Ok(value: T) | Err(failure: Failure)
  {
    predicate IsFailure() { Err? }

    function PropagateFailure<U>(): Result<U>
      requires Err?
    {
      Err(failure)
    }

    function Extract(): T
      requires Ok?
    {
      value
    }
  }

  /** A result with no value, for operations that only change state. */
  datatype Outcome = Pass | Fail(failure: Failure)
  {
    predicate IsFailure() { Fail? }

    function PropagateFailure(): Outcome
      requires Fail?
    {
      this
    }
  }
}
