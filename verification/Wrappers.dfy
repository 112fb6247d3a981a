module Wrappers {
  /** None stands for a call that throws. */
  datatype Option<+T> = None | Some(value: T)
}
