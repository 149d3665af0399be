/** Optional value, used for JavaScript results that can be NaN. */
module Wrappers {

  datatype Option<+T> = None | Some(value: T)
}
