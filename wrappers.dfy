/** Optional values: a Python attribute or dictionary entry that may be absent, or a call that may give None. */
module Wrappers {
  datatype Option<+T> = None | Some(value: T)
}
