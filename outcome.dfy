/** Success/failure values standing in for the Python exceptions of the modelled code. */
module Outcome {

  /** `Ok` carries the value a Python call returns; `Err` the exception it raises. */
  datatype Result<+T, +E> = Ok(value: T) | Err(error: E)

  /** An optional value (a failed lookup). */
  datatype Option<+T> = None | Some(value: T)
}
