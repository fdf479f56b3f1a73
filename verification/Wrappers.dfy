/** The optional values the firmware uses for "not seen yet" and "no answer". */
module Wrappers {
  datatype Option<+T> = None | Some(value: T) {
    /** The value, or a default when there is none. */
    function GetOr(default: T): T {
      if Some? then value else default
    }
  }
}
