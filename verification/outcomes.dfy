/** The Python exceptions the modelled code can raise, as values. */
module Outcomes {

  /** The exception classes the vector and ray arithmetic can raise. */
  datatype Error =
    | ZeroDivision    // ZeroDivisionError: a float divided by zero
    | IndexOutOfRange // IndexError: a list read past its end
    | NotAScalar      // a list passed where a number component was expected

  /** Either the value a call returns or the exception it raises. */
  datatype Result<+T> = Ok(value: T) | Err(error: Error)
}
