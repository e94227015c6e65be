/** The optional value used wherever the source returns `null` for "not found". */
module Wrappers {

  datatype Option<+T> = None | Some(value: T)
}
