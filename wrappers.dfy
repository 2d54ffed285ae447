/** Optional values: the model's rendering of C#'s `null`, TypeScript's `undefined`
    and nullable reference types. */
module Wrappers {

  datatype Option<+T> = None | Some(value: T) {

    /** The value, or `default` when there is none (C#'s `??`). */
    function GetOr(default: T): T {
      match this
      case Some(v) => v
      case None => default
    }
  }
}
