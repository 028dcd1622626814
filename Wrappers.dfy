/** An optional value: a result that may be absent. */
module Wrappers {
  datatype Option<+T> = None | Some(value: T)
}
