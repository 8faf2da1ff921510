/** The result type for operations that may have no value to return. */
module Wrappers {
  datatype Option<+T> = None | Some(value: T)
}
