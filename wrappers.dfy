/** Optional values, used for hints that may or may not exist in the page. */
module Wrappers {

  datatype Option<+T> = None | Some(value: T)
}
