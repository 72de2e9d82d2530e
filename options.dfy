/** An optional value: a request field that may be absent, a selection that may be empty. */
module Options {

  datatype Option<T> = None | Some(value: T) {

    /** The value, or `default` when absent (JavaScript's destructuring default). */
    function GetOr(default: T): T
    {
      match this
      case Some(v) => v
      case None => default
    }
  }
}
