/** Optional values, for the parsers that answer `None` in the source. */
module Wrappers {

  datatype Option<+T> = None | Some(value: T)
}
