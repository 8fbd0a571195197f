/** Small failure-carrying datatypes shared by the whole model. */
module Wrappers {

  datatype Option<+T> = None | Some(value: T) {
    function GetOr(default: T): T {
      match this
      case Some(v) => v
      case None => default
    }
  }

  /** Why a call did not produce its normal value. */
  datatype Error =
    | Raised                 // an exception escapes the function (the route answers 500)
    | DatabaseError          // a relational failure caught and reported as an error response
    | InvalidRange           // the retention range string is not one of the known ones
    | InstructionsRequired   // admin instructions were empty
    | SaveFailed             // memory.json could not be written

  datatype Result<+T> = Ok(value: T) | Err(error: Error)
}
