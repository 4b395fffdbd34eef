/** The optional value used where the source tests for `None`. */
module Wrappers {
  datatype Option<+T> = None | Some(value: T)
}
