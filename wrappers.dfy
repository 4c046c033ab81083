/** The optional value used for a node's parent reference and for a move that may not exist. */
module Wrappers {
  datatype Option<+T> = None | Some(value: T)
}
