/** Optional values, used where the component's state holds `null`. */
module Wrappers {
  datatype Option<+T> = None | Some(value: T)
}
