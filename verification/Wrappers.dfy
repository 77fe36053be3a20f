/** A value that may be missing, for the null pointers and the failing searches of the program. */
module Wrappers {
  datatype Option<T> = None | Some(value: T)
}
