/** Optional values, used where the original returns null or fails softly. */
module Wrappers {
  datatype Option<+T> = None | Some(value: T)
}
