/** The optional value used throughout the model: JavaScript's `undefined`/`null`
    (an unanswered position, a slot with no question, a missing deck field). */
module Wrappers {

  datatype Option<+T> = None | Some(value: T) {

    /** Returns the value held in Some, or `default` for None. */
    function GetOr(default: T): T {
      match this
      case Some(v) => v
      case None => default
    }
  }
}
