module Wrappers {
  /** None stands for a panic or an error of the modelled code. */
  datatype Option<+T> = None | Some(value: T)
}
