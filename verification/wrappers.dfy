/** The optional value used wherever the source passes or returns null. */
module Wrappers {
  datatype Option<T> = None | Some(value: T)
}
