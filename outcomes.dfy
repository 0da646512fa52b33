/** Optional values and the hard errors of the core. */
module Outcomes {
  datatype Option<T> = None | Some(value: T)

  datatype Failure =
      /** sample_poly_cbd with a configured standard deviation other than 3.2
          (a std::logic_error in the source). */
    | UnsupportedStandardDeviation
      /** The given draw sequence ended before the uniform sampler accepted a
          value. The generator of the source never runs out; this failure
          only marks draw sequences too short for the model. */
    | RandomnessExhausted
}
