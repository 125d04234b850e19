/** Optional values: a Go result that may be missing (a nil map, a failed read, a nil error). */
module Wrappers {

  datatype Option<+T> = None | Some(value: T)
}
