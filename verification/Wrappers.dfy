/** Option, used where the source has a pointer or a value that may be absent. */
module Wrappers {
  datatype Option<+T> = None | Some(value: T)
}
