/** The one optional-value datatype the model needs: `None` stands for a
    JavaScript `undefined` (a read past the end of an array, a parameter that
    was not supplied) and for an operation that throws. */
module Wrappers {

  datatype Option<+T> = None | Some(value: T) {

    /** The value, or `default` when there is none. */
    function GetOr(default: T): (r: T)
      ensures Some? ==> r == value
      ensures None? ==> r == default
    {
      match this
      case Some(v) => v
      case None => default
    }
  }
}
