/** The optional value used where the source keeps `false` for "not found". */
module Wrappers {
  datatype Option<+T> = None | Some(value: T)
}
