/** Outcomes shared by every module: an optional value and a result whose
    error text is not modelled. */
module Wrappers {
  datatype Option<+T> = None | Some(value: T)

  datatype Result<+T> = Success(value: T) | Failure
}
