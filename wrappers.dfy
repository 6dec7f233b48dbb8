/** Optional values: Go's `nil` error or a zero value that means "absent". */
module Wrappers {

  datatype Option<+T> = None | Some(value: T)
}
