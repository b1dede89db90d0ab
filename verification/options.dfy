/** The optional value returned by the bounds-checked accessors (Rust's `Option`). */
module Options {

  datatype Option<+T> = None | Some(value: T) {

    /** The wrapped value, or `default` when there is none (Rust's `unwrap_or`). */
    function GetOr(default: T): (r: T)
      ensures Some? ==> r == value
      ensures None? ==> r == default
    {
      match this
      case Some(v) => v
      case None => default
    }

    /** The wrapped value; calling it on `None` is the panic of Rust's `unwrap`. */
    function Extract(): T
      requires Some?
    {
      value
    }
  }
}
