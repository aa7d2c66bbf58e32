/** Small failure-carrying datatypes shared by the other modules, and the one
    piece of Python value semantics the downloader leans on: truthiness of an
    optional string. */
module Wrappers {

  /** An optional value: a position, a parsed number, a raised error or a
      result that may be missing. Where a field of this type models a
      dictionary entry, that field's own doc says what `None` stands for. */
  datatype Option<+T> = None | Some(value: T) {

    /** The value, or `default` when absent: Python's `d.get(key, default)`. */
    function GetOr(default: T): T {
      match this
      case Some(v) => v
      case None => default
    }
  }

  /** A dictionary entry whose absent and null forms the source treats
      differently: an absent key takes the `get` default, a null one does not. */
  datatype Field<+T> = Absent | Null | Present(value: T) {

    /** Python's `d.get(key, default)`: the default when absent, `None` when
        the key holds null. */
    function Lookup(default: T): (r: Option<T>)
      ensures r.None? <==> Null?
      ensures Absent? ==> r == Some(default)
      ensures Present? ==> r == Some(value)
    {
      match this
      case Absent => Some(default)
      case Null => None
      case Present(v) => Some(v)
    }
  }

  /** The outcome of a call that may raise: `Failure` carries the message. */
  datatype Result<+R> = Success(value: R) | Failure(error: string)

  /** Python truthiness of an optional string: present and non-empty. */
  predicate Truthy(s: Option<string>) {
    s.Some? && s.value != ""
  }
}
