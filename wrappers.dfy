/** The optional value used throughout the model for PHP's nullable results. */
module Wrappers {
  datatype Option<+T> = None | Some(value: T)
}
