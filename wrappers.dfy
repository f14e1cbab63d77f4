/** The optional value that Rust spells `Option<T>`, and the `unwrap_or_default`
    step the iterator pipelines end with. */
module Wrappers {

  datatype Option<+T> = None | Some(value: T) {

    /** The value inside `Some`, or `default` for `None`. */
    function GetOr(default: T): T {
      match this
      case Some(v) => v
      case None => default
    }
  }
}
