/** The optional values of the page: a `null` next/prev link or error message is `None`. */
module Wrappers {
  datatype Option<+T> = None | Some(value: T)
}
