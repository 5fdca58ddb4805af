/** A result that may be missing: the library's ERREXIT paths return None. */
module Wrappers {
  datatype Option<+T> = None | Some(value: T)
}
