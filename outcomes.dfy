/** Failure-carrying values for the places where the Python code raises.
    A dictionary lookup that misses raises KeyError; a failed `assert`
    statement raises AssertionError. Both abort the operation. */
module Outcomes {

  datatype Option<+T> = None | Some(value: T)

  datatype Error = KeyError | AssertionError

  datatype Result<+T> = Ok(value: T) | Err(error: Error)
}
