/** The optional value used for cells that can be missing and for reductions over nothing. */
module Wrappers {
  datatype Option<+T> = None | Some(value: T)
}
