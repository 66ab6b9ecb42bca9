/** The optional value returned where the source can fail or produce no number. */
module Wrappers {
  datatype Option<T> = None | Some(value: T)
}
