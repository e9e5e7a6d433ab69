/** A value that may be absent: JavaScript's `undefined` for an optional
    property or a missing cookie. */
module Optional {

  datatype Option<T> = None | Some(value: T) {

    /** The value, or `default` when absent (a destructuring default). */
    function GetOr(default: T): T {
      match this
      case Some(v) => v
      case None => default
    }
  }
}
