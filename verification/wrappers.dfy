/** The optional value that stands for JavaScript's `null` / `undefined` results. */
module Wrappers {

  datatype Option<+T> = None | Some(value: T) {

    /** `x || fallback` for an object-or-null `x`. */
    function OrElse(fallback: Option<T>): Option<T>
    {
      if Some? then this else fallback
    }
  }
}
