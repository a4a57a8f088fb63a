/** Result and error values shared by every module of the model.
    The Python source raises an exception; the model returns Err with the
    condition that was detected. */
module Wrappers {

  /** The conditions under which the modelled code raises. */
  datatype Error =
    | UnknownMethod                  // derive: method string not recognised
    | NotSquare                      // a matrix or graphlet that must be square is not
    | SizeMismatch                   // a dimension does not agree with the data
    | BadWindow                      // window size negative, too large, or empty mean
    | MissingKey(key: string)        // a dictionary key the code reads is absent
    | BadValue(key: string)          // a value outside the accepted set
    | IndexOutOfRange                // numpy/pandas indexing error
    | TwoSources                     // TemporalNetwork given more than one from_* input
    | DenseNetwork                   // edge editing asked of a dense network
    | NoNettype                      // nettype read before it was ever set
    | NonFinite                      // the computation would produce inf or NaN
    | Empty                          // a reduction over no elements

  datatype Result<+T> = Ok(value: T) | Err(error: Error) {
    predicate IsFailure() { Err? }
    function PropagateFailure<U>(): Result<U>
      requires Err?
    {
      Err(error)
    }
    function Extract(): T
      requires Ok?
    {
      value
    }
  }

  datatype Outcome = Pass | Fail(error: Error) {
    predicate IsFailure() { Fail? }
    function PropagateFailure<U>(): Result<U>
      requires Fail?
    {
      Err(error)
    }
  }

  datatype Option<+T> = None | Some(value: T)
}
