/** The optional value used for nullable fields and missing lookups. */
module Wrappers {
  datatype Option<+T> = None | Some(value: T)
}
