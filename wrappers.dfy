/** The optional value used for board cells and for the successor of a tile. */
module Wrappers {
  datatype Option<T> = None | Some(value: T)
}
