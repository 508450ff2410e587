/** The optional-value datatype used for results that may be absent (a NULL pointer, a failed load). */
module Wrappers {
  datatype Option<+T> = None | Some(value: T)
}
