/** The optional value used wherever the app reads something that may be
    absent: a number that did not parse, a tapped cell without an entry, a
    storage key that holds nothing. */
module Wrappers {

  datatype Option<+T> = None | Some(value: T) {

    /** The carried value, or `default` when there is none. */
    function GetOr(default: T): T {
      match this
      case Some(v) => v
      case None => default
    }
  }
}
