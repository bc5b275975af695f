/** Option type used for nullable names and for lookups that may fail. */
module Wrappers {
  datatype Option<+T> = None | Some(value: T)
}
