/** Optional values: a CSV cell that may be absent, a file that may not be chosen. */
module Wrappers {

  datatype Option<+T> = None | Some(value: T)
}
