/** Outcomes of operations that the Python code lets raise an exception. */
module Wrappers {

  /** The Python exception classes the governor's code can raise. */
  datatype Error =
    | TypeError          // a constructor called with the wrong number of fields
    | ValueError         // a number that does not parse, a pair that is not a pair, min/max of nothing
    | IndexError         // indexing the empty result of a regular-expression search
    | ZeroDivisionError  // division by a zero CPU share
    | AttributeError     // an unknown scheduler name

  datatype Option<+T> = None | Some(value: T)

  datatype Result<+T> = Ok(value: T) | Err(error: Error) {
    predicate IsFailure() { Err? }

    function PropagateFailure<U>(): Result<U>
      requires Err?
    {
      Err(error)
    }

    function Extract(): T
      requires Ok?
    {
      value
    }
  }
}
