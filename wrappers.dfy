/** The optional value used wherever the source stores a pointer that may be NULL. */
module Wrappers {

  datatype Option<+T> = None | Some(value: T)

  /** The value held by `o`, or `default` when there is none. */
  function GetOr<T>(o: Option<T>, default: T): T
  {
    match o
    case Some(v) => v
    case None => default
  }
}
