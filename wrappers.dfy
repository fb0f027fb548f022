/** The optional-value datatype used throughout the model. */
module Wrappers {

  /** A value that may be absent; stands for TypeScript's `T | undefined`. */
  datatype Option<+T> = None | Some(value: T)
}
