/** Rust's Option, Result and Ordering, as the binding uses them. */
module Prelude {

  datatype Option<T> = None | Some(value: T) {

    /** `Option::or_else`: this value when it is Some, otherwise the alternative. */
    function OrElse(other: Option<T>): Option<T> {
      if Some? then this else other
    }

    /** `Option::unwrap_or`. */
    function UnwrapOr(default: T): T {
      if Some? then value else default
    }
  }

  datatype Result<T, E> = Ok(value: T) | Err(error: E)

  /** `std::cmp::Ordering`, the result of a derived `Ord::cmp`. */
  datatype Ordering = Less | Equal | Greater
}
