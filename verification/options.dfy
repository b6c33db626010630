/** The optional value used for slot contents and lookup results, as in Rust's `Option`. */
module Options {

  datatype Option<+T> = None | Some(value: T) {

    /** Applies `f` to the wrapped value, keeping `None` as it is. */
    function Map<U>(f: T -> U): (r: Option<U>)
      ensures r.Some? <==> Some?
      ensures r.Some? ==> r.value == f(value)
    {
      match this
      case None => None
      case Some(v) => Some(f(v))
    }
  }
}
