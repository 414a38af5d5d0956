/** The optional value both scripts use for "no score" (Python's `None` or a NaN cell). */
module Wrappers {

  datatype Option<+T> = None | Some(value: T)
}
