/** The optional value used for a query response that may have failed. */
module Wrappers {
  datatype Option<+T> = None | Some(value: T)
}
