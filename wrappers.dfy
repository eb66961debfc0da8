/** The usual optional value: `None` stands for an operation that stops on a
    failed run-time assertion. */
module Wrappers {
  datatype Option<+T> = None | Some(value: T)
}
