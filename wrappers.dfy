/** Option and Result wrappers, and the Python exceptions the modelled code can raise. */
module Wrappers {

  datatype Option<T> = None | Some(value: T)

  /** The exception classes raised by the modelled code. */
  datatype Error =
    | AttributeError   // an attribute looked up on a node kind that lacks it
    | IndexError       // a list indexed past its end
    | ValueError       // raised explicitly by the code
    | TypeError        // raised explicitly by the code

  /** The outcome of a call that may raise: a value, or the exception raised. */
  datatype Result<T> = Ok(value: T) | Err(error: Error) {

    predicate IsFailure() {
      Err?
    }

    function PropagateFailure<U>(): Result<U>
      requires Err?
    {
      Err(error)
    }

    function Extract(): T
      requires Ok?
    {
      value
    }
  }
}
