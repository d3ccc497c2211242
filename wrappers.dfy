/** Optional values: an omitted actual argument, an absent folded constant. */
module Wrappers {
  datatype Option<+T> = None | Some(value: T)
}
