/** A value or none: a pointer that may be null, a result that may be missing. */
module Wrappers {
  datatype Option<T> = None | Some(value: T)
}
