/** Optional values: nil in the Ruby code becomes None. */
module Wrappers {

  datatype Option<+T> = None | Some(value: T)
}
