/** Optional values: the Kotlin `null` of a nullable result, and the thrown
    exception of an operation that the model treats as "no result". */
module Wrappers {

  datatype Option<+T> = None | Some(value: T) {

    /** The value, or `default` when there is none (Kotlin's `?:`). */
    function GetOr(default: T): T
    {
      match this
      case Some(v) => v
      case None => default
    }
  }
}
