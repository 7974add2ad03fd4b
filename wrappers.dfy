/** A value that may be missing: the result of a lookup that can find nothing. */
module Wrappers {
  datatype Option<+T> = None | Some(value: T)
}
