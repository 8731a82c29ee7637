/** The optional-value wrapper used for every operation that can fail. */
module Wrappers {

  /** `None` stands for "no value": a Go panic, a nil result or an exhausted transport. */
  datatype Option<+T> = None | Some(value: T)
}
