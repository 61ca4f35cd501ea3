/** Small shared vocabulary: an optional value, used for SQL NULLs,
    absent form fields and lookups that may find nothing. */
module Common {

  datatype Option<T> = None | Some(value: T) {

    /** The value, or `default` when absent (Python's `x or default`
        for a value that is either None or a non-empty string). */
    function GetOr(default: T): T {
      match this
      case Some(v) => v
      case None => default
    }
  }
}
