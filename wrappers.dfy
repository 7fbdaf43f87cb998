/** The optional value used where the source throws or returns null. */
module Wrappers {
  datatype Option<T> = None | Some(value: T)
}
