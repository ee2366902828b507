/** The shape behind the source's `Option` values. */
module Wrappers {

  datatype Option<+T> = None | Some(value: T)
}
