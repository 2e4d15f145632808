/** The optional value used for every lookup that can fail. */
module Wrappers {

  datatype Option<+T> = None | Some(value: T)
}
