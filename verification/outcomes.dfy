/** Failure-carrying result types shared by the whole model. */
module Outcomes {

  /** The ways a call into the library can fail. */
  datatype Error =
    | MathDomainError  // the square root of a negative number was requested
    | NoFactorFound    // the downward divisor scan ran out without a divisor
    | EmptySequence    // the maximum of an empty collection was requested

  datatype Option<+T> = None | Some(value: T)

  datatype Result<+T> = Ok(value: T) | Err(error: Error)
}
