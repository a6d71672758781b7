/** The optional value used for nullable columns and missing request fields. */
module Wrappers {

  datatype Option<+T> = None | Some(value: T)
}
