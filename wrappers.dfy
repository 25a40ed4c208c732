/** The optional value used wherever the script either has a value or raises. */
module Wrappers {

  datatype Option<T> = None | Some(value: T) {

    /** The value if present, otherwise the given default. */
    function GetOr(default: T): T {
      if Some? then value else default
    }
  }
}
