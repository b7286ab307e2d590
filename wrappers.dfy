/** The optional value used where the program falls back on a default. */
module Wrappers {
  datatype Option<+T> = None | Some(value: T)
}
