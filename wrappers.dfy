/** An optional value, for the pointers the source leaves NULL. */
module Wrappers {
  datatype Option<T> = None | Some(value: T)
}
