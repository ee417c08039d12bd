/** Optional value, used where the Java code returns `null`. */
module Wrappers {

  /** `None` stands for a `null` result of the Java code; `Some(v)` for a real value. */
  datatype Option<+T> = None | Some(value: T)
}
