/** Result types shared by the model: a missing field, and a check that may raise. */
module Wrappers {

  datatype Option<+T> = None | Some(value: T) {
    function GetOr(default: T): T {
      if Some? then value else default
    }
  }

  /** The verdict of an analysis: its value, or a raised error. Messages are not modelled. */
  datatype Result<+T> = Success(value: T) | Failure
}
