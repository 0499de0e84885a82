/** Small failure-carrying datatypes shared by the whole model. */
module Wrappers {

  /** Kotlin's nullable `T?`: `None` stands for `null`. */
  datatype Option<+T> = None | Some(value: T) {

    /** The `?:` (elvis) operator: the value if present, `default` otherwise. */
    function GetOr(default: T): T {
      match this
      case Some(v) => v
      case None => default
    }
  }

  /** The outcome of an expression that indexes a Kotlin list or string:
      either a value, or the `IndexOutOfBoundsException` it throws.
      The source never catches that exception, so it ends the screen. */
  datatype Checked<+T> = Ok(value: T) | IndexOutOfBounds
}
