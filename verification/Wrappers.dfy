/** The optional value used where the source has a nullable result or a null column. */
module Wrappers {
  datatype Option<+T> = None | Some(value: T)
}
