/** Failure reporting shared by the solver and the interpolator. `invert_2x2` and
    `np.linspace` raise `ValueError`; here a failing call returns `Err` instead. */
module Results {

  /** The two ways a well-formed call can fail. */
  datatype Error =
    | SingularMatrix       // `invert_2x2` met a zero determinant
    | NegativeSampleCount  // `np.linspace` was asked for fewer than zero points

  datatype Result<T> = Ok(value: T) | Err(error: Error)
}
