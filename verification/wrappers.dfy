/** Failure-compatible wrappers used throughout the manifest model.
    - Option<T> stands for Python's `None`-or-value results (a regex match
      object, a located anchor index).
    - Result<T, E> stands for a computation that may raise: `Failure` carries
      the message the caller would see.
 */
module Wrappers {

  datatype Option<+T> = None | Some(value: T) {

    /** The carried value, or the given default when None. */
    function GetOr(default: T): T {
      match this
      case Some(v) => v
      case None => default
    }

    /** The carried value as a one-item list, or the empty list. */
    function ToSeq(): (r: seq<T>)
      ensures |r| <= 1
      ensures r == [] <==> None?
      ensures Some? ==> r[0] == value
    {
      match this
      case Some(v) => [v]
      case None => []
    }
  }

  datatype Result<+T, +E> = Success(value: T) | Failure(error: E)
}
