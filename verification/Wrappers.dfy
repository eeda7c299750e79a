module Wrappers {

  /** A pointer or handle that may be absent. */
  datatype Option<+T> = None | Some(value: T)
}
