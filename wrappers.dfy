/** Optional values: `undefined`/`null` in the editor become `None`. */
module Wrappers {

  datatype Option<+T> = None | Some(value: T)
}
