/** Outcome types shared by the models. */
module Wrappers {
  datatype Option<+T> = None | Some(value: T)

  /** A Go function's `(value, error)` pair.  `Panic` is a run-time panic of the
      original: an index out of range or a failed type assertion. */
  datatype Result<+T> = Ok(value: T) | Err | Panic
}
