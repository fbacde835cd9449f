/** Optional values and fallible results, the model's stand-ins for JavaScript's
    `undefined` and for exceptions that escape an effect. */
module Wrappers {

  /** `None` plays the part of JavaScript's `undefined`. */
  datatype Option<+T> = None | Some(value: T) {

    /** The wrapped value, or `default` when there is none. */
    function GetOr(default: T): T {
      match this
      case Some(v) => v
      case None => default
    }
  }

  /** An operation that either completes or throws; `Err` carries the error's name. */
  datatype Result<+T> = Ok(value: T) | Err(error: string)
}
