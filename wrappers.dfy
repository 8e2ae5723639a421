/** Option and Result values, and the ways the modelled Python code can fail. */
module Wrappers {

  datatype Option<T> = None | Some(value: T)

  /** One constructor per failure of the modelled code. */
  datatype Error =
    | NotEstimated      // AssertionError raised by the "estimated" guard
    | IndexOutOfRange   // IndexError raised by numpy integer-array indexing
    | ShapeMismatch     // ValueError raised by numpy when values cannot be broadcast into a fancy assignment, or when np.sum meets arrays of different lengths
    | NegativeLabel     // ValueError raised by numpy.bincount on a negative state label
    | DivisionByZero    // ZeroDivisionError raised by a Python float division
    | NonFiniteWeights  // numpy division by a zero total: no exception, the arrays fill with nan/inf

  datatype Result<T> = Ok(value: T) | Err(error: Error)
}
