/**
 * Optional values, the model's counterpart of `undefined` / `null` results,
 * and outcomes that may carry an error message in place of a thrown Error.
 */
module Wrappers {

  datatype Option<+T> = None | Some(value: T) {

    /** The held value, with `default` standing in when there is none: JavaScript's `x ?? default`. */
    function GetOr(default: T): T {
      match this
      case Some(v) => v
      case None => default
    }
  }

  datatype Result<+T> = Success(value: T) | Failure(error: string)
}
