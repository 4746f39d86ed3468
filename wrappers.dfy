/** A nullable value: SQL `NULL` and Python `None`. */
module Wrappers {
  datatype Option<+T> = None | Some(value: T)
}
