/** The optional value used for Python's `None`: an absent goal node, the
    parent of the start node, a failed split. */
module Wrappers {

  datatype Option<+T> = None | Some(value: T)

}
