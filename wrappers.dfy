/** The optional value used for a missing district and for a lookup that finds nothing. */
module Wrappers {

  datatype Option<+T> = None | Some(value: T)
}
