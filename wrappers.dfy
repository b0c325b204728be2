/** The optional-value datatype used throughout the model. */
module Wrappers {

  /** Some value or none at all; Python's `None` for an optional object. */
  datatype Option<+T> = None | Some(value: T)
}
