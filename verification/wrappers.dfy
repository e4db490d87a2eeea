/** The Option datatype used for values the program represents with `null`. */
module Wrappers {

  /** `None` stands for JavaScript's `null`; `Some(v)` for a present value. */
  datatype Option<+T> = None | Some(value: T)
}
