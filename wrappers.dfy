/** Nullable values, as the Kotlin code uses `T?`. */
module Wrappers {

  /** A Kotlin nullable value: `None` stands for `null`. */
  datatype Option<+T> = None | Some(value: T) {
    function GetOr(default: T): T {
      match this
      case Some(v) => v
      case None => default
    }
  }

}
