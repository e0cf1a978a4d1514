/** The optional value used where Python returns `None` or a match object. */
module Wrappers {

  datatype Option<+T> = None | Some(value: T)
}
