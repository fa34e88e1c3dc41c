/** Optional values and results shared by every module of the model. */
module Common {

  /** A value that may be missing: Python's None, or a pandas NaN cell. */
  datatype Option<+T> = None | Some(value: T)

  /** The outcome of an operation that raises or answers with an error. */
  datatype Result<+T, +E> = Ok(value: T) | Err(error: E)

  /** No element occurs twice. */
  predicate NoDuplicates<T(==)>(s: seq<T>)
  {
    forall i, j :: 0 <= i < j < |s| ==> s[i] != s[j]
  }
}
