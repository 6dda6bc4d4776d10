/** The optional value used where the C code returns either a pointer or NULL. */
module Wrappers {
  datatype Option<+T> = None | Some(value: T)
}
