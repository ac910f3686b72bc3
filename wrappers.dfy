/** The optional value used where the source either finds something or not. */
module Wrappers {

  datatype Option<+T> = None | Some(value: T)
}
