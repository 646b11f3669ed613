/** An optional value, standing for Swift's `T?` in the observers of this model. */
module Options {

  datatype Option<T> = None | Some(value: T) {

    /** Transforms the contained value, if any. */
    function Map<U>(f: T -> U): (r: Option<U>)
      ensures r.Some? <==> Some?
      ensures r.Some? ==> r.value == f(value)
    {
      match this
      case None => None
      case Some(v) => Some(f(v))
    }
  }
}
