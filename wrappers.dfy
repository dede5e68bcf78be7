/** Small failure-aware wrapper shared by the other modules. */
module Wrappers {

  /** An optional value: `None` where Go code leaves a variable untouched or returns nil. */
  datatype Option<+T> = None | Some(value: T)
}
