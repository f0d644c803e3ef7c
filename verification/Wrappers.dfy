/** The one result type the modules share. */
module Wrappers {
  datatype Option<+T> = None | Some(value: T)
}
