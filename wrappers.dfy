/** The optional value used for Python's `None` and for failed collaborator calls. */
module Wrappers {

  datatype Option<+T> = None | Some(value: T)
}
