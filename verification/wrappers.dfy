/** The optional value used wherever the game reads something that may be
    absent: a missing navigation state, a signed-out user, a missing field. */
module Wrappers {

  datatype Option<+T> = None | Some(value: T) {

    /** The value, or `default` when absent (the `x || default` idiom for
        values whose falsy case is the same as the default). */
    function GetOr(default: T): T {
      match this
      case Some(v) => v
      case None => default
    }
  }
}
