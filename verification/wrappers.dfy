/** Optional values, standing in for Python's `None` and nullable database columns. */
module Wrappers {

  datatype Option<+T> = None | Some(value: T)
}
