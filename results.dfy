/** The two ways a computation of the integration engine can fail. */
module Results {

  /** `DivisionByZero`: the equation's denominator vanished at a sampled point.
      `OddIntervalCount`: Simpson's rule was asked for an odd number of sub-intervals. */
  datatype Error = DivisionByZero | OddIntervalCount

  /** A value, or the error that stopped its computation (the source throws an exception). */
  datatype Result<+T> = Ok(value: T) | Err(error: Error)
}
