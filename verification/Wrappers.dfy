/** An optional value, for operations of the source that report failure by a false return. */
module Wrappers {
  datatype Option<+T> = None | Some(value: T)
}
