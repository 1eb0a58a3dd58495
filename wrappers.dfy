/** The optional value used wherever the source has `None` / a nullable column. */
module Wrappers {

  datatype Option<+T> = None | Some(value: T)
}
