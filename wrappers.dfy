/** Ruby's nil-or-value results, as an option type. */
module Wrappers {

  /** `None` stands for Ruby's nil. */
  datatype Option<+T> = None | Some(value: T)
}
