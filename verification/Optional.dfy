/**
  A value that may be missing: the model's stand-in for JavaScript's
  `undefined` and `null` in request fields, lookups and the logged-in user.
 */
module Optional {

  datatype Option<T> = None | Some(value: T) {

    /** `x || fallback` for a field that is either missing or present. */
    function OrElse(fallback: T): (r: T)
      ensures Some? ==> r == value
      ensures None? ==> r == fallback
    {
      if Some? then value else fallback
    }
  }
}
