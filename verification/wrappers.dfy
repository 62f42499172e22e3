/** The optional-value datatype used for rate fields the broker may leave out. */
module Wrappers {

  /** Some value, or nothing (Ruby's `nil`). */
  datatype Option<+T> = None | Some(value: T) {

    /** The wrapped value, or `default` when there is none. */
    function GetOr(default: T): (r: T)
      ensures Some? ==> r == value
      ensures None? ==> r == default
    {
      match this
      case Some(v) => v
      case None => default
    }
  }
}
