/** The optional value used for a search that may fail and for the board's selection. */
module Wrappers {

  datatype Option<+T> = None | Some(value: T)
}
