/** The optional value used for possibly-failing lookups and matches. */
module Wrappers {

  datatype Option<+T> = None | Some(value: T)
}
