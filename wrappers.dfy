/** The optional value the engine returns where the Python code returns `None`. */
module Wrappers {

  datatype Option<+T> = None | Some(value: T) {

    /** The wrapped value, or `default` when there is none. */
    function GetOr(default: T): T
    {
      if Some? then value else default
    }
  }
}
