/** Option and Result values standing in for Python's None and for the
    exceptions the modelled code lets escape. */
module Wrappers {

  datatype Option<+T> = None | Some(value: T)

  /** The Python exceptions the core can raise. The few the code catches
      (an out-of-range index in `getParameterAtIndex` and `toInt`, a missing
      SNR in `recordPossibleMatch`) are handled where they are caught; every
      other one escapes and ends the operation as a `Failure`. */
  datatype Error =
    | IndexError         // a missing list element or token
    | ValueError         // int() or float() given text that is not a number
    | TypeError          // a parameter read from a record that lacks it
    | ZeroDivisionError  // 1/F0 with F0 == 0
    | AttributeError     // matching before any catalog was indexed

  datatype Result<+T> = Success(value: T) | Failure(error: Error) {
    predicate IsFailure() {
      Failure?
    }

    function PropagateFailure<U>(): Result<U>
      requires Failure?
    {
      Failure(error)
    }

    function Extract(): T
      requires Success?
    {
      value
    }
  }
}
