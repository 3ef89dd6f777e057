/** Optional values: `None` stands for JavaScript's `null` / "absent". */
module Wrappers {
  datatype Option<+T> = None | Some(value: T)
}
