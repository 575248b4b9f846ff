/** The optional value used for a parse step that can fail. */
module Wrappers {

  datatype Option<+T> = None | Some(value: T)
}
