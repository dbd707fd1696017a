/** Failure-compatible wrapper used where the PHP code returns `false` or `null`. */
module Wrappers {

  /** `None` stands for PHP's `false` / `null`; `Some(v)` for a real value. */
  datatype Option<+T> = None | Some(value: T)
}
