/** Optional values: a JSON field or an HTTP header that may be absent. */
module Wrappers {

  datatype Option<+T> = None | Some(value: T)
}
