/** Optional values: a form field or CSV column that may be absent, a nullable column. */
module Wrappers {

  datatype Option<+T> = None | Some(value: T)
}
