/** Optional values: a selection that may be absent, a lookup that may fail. */
module Wrappers {

  datatype Option<+T> = None | Some(value: T)
}
