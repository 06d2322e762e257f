/** The absent/present wrapper used for a level that may be undefined (Python's `None`). */
module Wrappers {

  datatype Option<+T> = None | Some(value: T)
}
