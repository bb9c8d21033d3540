/** Error values that stand in for the exceptions the engine throws and catches. */
module Wrappers {

  /** The exception kinds that the engine's code can raise. */
  datatype Fault =
    | NullReference                                     // a member access through a null child reference
    | ArgumentError(message: string)                    // ArgumentException
    | ArgumentNull(paramName: string)                   // ArgumentNullException
    | ArgumentOutOfRange(paramName: string, message: string) // ArgumentOutOfRangeException

  datatype Result<+T> = Ok(value: T) | Err(error: Fault) {
    predicate IsFailure() { Err? }

    function PropagateFailure<U>(): Result<U>
      requires Err?
    {
      Err(error)
    }

    function Extract(): T
      requires Ok?
    {
      value
    }
  }

  datatype Option<+T> = None | Some(value: T)
}
