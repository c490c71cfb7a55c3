/** Python's `None` next to a value: the "no result" of a search or of `pop` on an empty heap. */
module Wrappers {
  datatype Option<+T> = None | Some(value: T)
}
