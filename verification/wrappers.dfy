/** Optional values and success/failure values, standing in for Python's
    `None` and for exceptions raised by collaborators the model cannot see. */
module Wrappers {

  /** A value that may be absent (`None` in the service). */
  datatype Option<+T> = None | Some(value: T) {

    /** The held value, or `default` when absent (Python's `d.get(key, default)`). */
    function GetOr(default: T): T {
      match this
      case Some(v) => v
      case None => default
    }
  }

  /** A key of a dictionary the service reads: missing, present holding `None`,
      or present holding a value. */
  datatype Field<+T> = Missing | NoneValue | Present(value: T) {

    /** Python's `d.get(key, default)`: the default only for a missing key; a
        key holding `None` gives `None`. */
    function Get(default: T): (r: Option<T>)
      ensures r.None? <==> this.NoneValue?
      ensures this.Missing? ==> r == Some(default)
      ensures this.Present? ==> r == Some(this.value)
    {
      match this
      case Missing => Some(default)
      case NoneValue => None
      case Present(v) => Some(v)
    }
  }

  /** The outcome of a call that either returns a value or raises with an error text. */
  datatype Result<+R, +E> = Success(value: R) | Failure(error: E)
}
