/** Optional values: `None` stands for JavaScript's `undefined` (an unset array slot or an invalid time). */
module Wrappers {

  datatype Option<+T> = None | Some(value: T)
}
