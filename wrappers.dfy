/** Optional values: an instruction count that may be missing, a length that may be unknown. */
module Wrappers {
  datatype Option<+T> = None | Some(value: T)
}
