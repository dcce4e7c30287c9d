/** The `Option` type the source uses for "maybe absent" values. */
module Optional {

  datatype Option<+T> = None | Some(value: T) {

    /** The payload, or `default` when absent (Rust's `unwrap_or`). */
    function UnwrapOr(default: T): T {
      match this
      case Some(v) => v
      case None => default
    }
  }
}
