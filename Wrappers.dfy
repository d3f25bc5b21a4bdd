/** Option and Result types shared by the model.

    `Result` stands for a step of the importer that may raise a Python
    exception.  The importer catches every exception of a document alike and
    turns it into "no cache entry", so the model keeps no error detail. */
module Wrappers {

  datatype Option<T> = None | Some(value: T) {
    /** The wrapped value, or `default` when absent (Python's `dict.get(key, default)`). */
    function GetOr(default: T): T {
      if Some? then value else default
    }
  }

  datatype Result<T> = Ok(value: T) | Raised {
    predicate IsFailure() {
      Raised?
    }

    function PropagateFailure<U>(): Result<U>
      requires Raised?
    {
      Raised
    }

    function Extract(): T
      requires Ok?
    {
      value
    }
  }

  /** Python's `d[key]` on a key that may be missing: a missing key raises `KeyError`. */
  function Required<T>(o: Option<T>): Result<T> {
    match o
    case Some(v) => Ok(v)
    case None => Raised
  }
}
