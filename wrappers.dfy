/** Rust's `Option`, with the one combinator the zip's size estimate uses. */
module Wrappers {

  datatype Option<+T> = None | Some(value: T) {

    /** `self.or(other)`: this value when it is present, otherwise `other`. */
    function Or(other: Option<T>): Option<T>
    {
      if Some? then this else other
    }
  }
}
