/** A nullable value: a nil pointer, a NULL column or a failed read. */
module Wrappers {
  datatype Option<+T> = None | Some(value: T)
}
