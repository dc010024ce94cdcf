/** The optional-value datatype used for values the program may not have
    (a JSON key that is absent, a file that does not exist, an unset config
    entry). */
module Wrappers {

  datatype Option<+T> = None | Some(value: T) {

    /** The value, or `default` when there is none (Python's `dict.get(k, default)`). */
    function GetOr(default: T): T {
      match this
      case Some(v) => v
      case None => default
    }
  }
}
