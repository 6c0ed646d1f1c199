/** Optional values: JavaScript's `null` in a grid slot and in the selected-day state. */
module Wrappers {

  datatype Option<+T> = None | Some(value: T)

}
