/** Optional values, for a parse that can fail and a frame that may not have been shown yet. */
module Wrappers {
  datatype Option<+T> = None | Some(value: T)
}
