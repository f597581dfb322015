/** The optional-value datatype used for every result the outside world may
    fail to deliver (a process listing, a process name, a CPU or memory reading). */
module Wrappers {

  datatype Option<+T> = None | Some(value: T) {

    /** The value in Some, or `default` when None. */
    function GetOr(default: T): T
    {
      match this
      case Some(v) => v
      case None => default
    }
  }
}
