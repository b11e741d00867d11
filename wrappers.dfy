/** The optional value used where the launcher returns `None`. */
module Wrappers {

  datatype Option<+T> = None | Some(value: T)
}
