/** Optional values, used for the nullable references of the script (an
    absent document body, a style element not yet created, a pending timer). */
module Wrappers {
  datatype Option<+T> = None | Some(value: T)
}
