/** The optional-value datatype shared by the scene modules. */
module Wrappers {

  /** `None` plays the role of JavaScript's `undefined` wherever a value may be missing. */
  datatype Option<+T> = None | Some(value: T) {

    /** The wrapped value, or `default` when there is none. */
    function GetOr(default: T): T {
      match this
      case Some(v) => v
      case None => default
    }
  }
}
