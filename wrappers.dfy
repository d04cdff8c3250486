/** The nullable values of the source (`null` or a value) as an explicit option type. */
module Wrappers {
  datatype Option<+T> = None | Some(value: T)
}
