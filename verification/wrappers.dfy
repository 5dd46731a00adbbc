/** The optional-value datatype used throughout the model: a form field or
    upload that may be missing, a reply that may be absent, a regex match
    attempt that may fail. */
module Wrappers {

  datatype Option<+T> = None | Some(value: T) {

    /** The value inside `Some`, or `default` when there is none. */
    function GetOr(default: T): (r: T)
      ensures Some? ==> r == value
      ensures None? ==> r == default
    {
      match this
      case Some(v) => v
      case None => default
    }
  }

  /** What a question generator returns: an error object, or the list of
      records it read from the model's reply. */
  datatype Generated<+T> = Failed(error: string) | Produced(items: seq<T>)
}
