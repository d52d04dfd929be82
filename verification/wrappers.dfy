/** The optional value used throughout the model for Python's `None`, and raw file contents. */
module Wrappers {

  /** File contents and response bodies: Python's `bytes`. */
  type Bytes = seq<bv8>

  datatype Option<+T> = None | Some(value: T) {

    /** Returns the value inside Some, or `default` for None (Python's `d.get(k, default)`). */
    function GetOr(default: T): T {
      match this
      case Some(v) => v
      case None => default
    }
  }
}
