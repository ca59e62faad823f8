/** Optional values, used for fields a JSON object may leave out. */
module Wrappers {

  datatype Option<+T> = None | Some(value: T)
}
