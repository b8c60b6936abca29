/** The optional values that Swift spells `T?`. */
module Wrappers {

  /** `None` stands for Swift's `nil`, `Some(v)` for a present value. */
  datatype Option<+T> = None | Some(value: T) {

    /** The value if present, `default` otherwise (Swift's `??`). */
    function GetOr(default: T): T {
      match this
      case Some(v) => v
      case None => default
    }
  }
}
