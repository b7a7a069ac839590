/** Values that may be missing, and calls that may raise. */
module Outcomes {
  datatype Option<+T> = None | Some(value: T)
  datatype Result<+T> = Done(value: T) | Refused
}
