/** Optional values: a parsed number that may be absent, a map lookup that may miss. */
module Wrappers {

  datatype Option<+T> = None | Some(value: T)
}
