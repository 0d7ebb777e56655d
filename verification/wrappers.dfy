/** Optional values: a JSON field that the extracted reference may or may not carry. */
module Wrappers {

  datatype Option<+T> = None | Some(value: T)
}
