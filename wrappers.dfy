/** The usual optional value, for absent keys, absent roots and nil fields. */
module Wrappers {
  datatype Option<+T> = None | Some(value: T)
}
