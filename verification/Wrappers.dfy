/** Outcomes of stream operations: a value, or the exception Java would throw. */
module Wrappers {

  /** The exceptions the modelled operations can raise. */
  datatype Error =
    | IllegalArgument   // IllegalArgumentException: a bit count out of range
    | IndexOutOfBounds  // IndexOutOfBoundsException: a bad offset or length for a bulk read
    | IOFailure         // IOException: here, a reset the byte source cannot perform

  datatype Result<T> = Ok(value: T) | Err(error: Error)

  datatype Option<T> = None | Some(value: T)
}
