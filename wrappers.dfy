/** Option values for lookups and operations that may fail. */
module Wrappers {
  datatype Option<T> = None | Some(value: T)
}
