/** The optional value used wherever the Python code returns None or skips a malformed entry. */
module Options {

  datatype Option<T> = None | Some(value: T) {

    /** The wrapped value, or a default when there is none (Python's `d.get(k, default)`). */
    function GetOr(default: T): T {
      match this
      case Some(v) => v
      case None => default
    }
  }
}
