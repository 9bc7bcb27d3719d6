/** The optional value used where a note file may be missing or a callback absent. */
module Wrappers {

  datatype Option<+T> = None | Some(value: T)
}
