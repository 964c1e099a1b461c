/** Small shared vocabulary: paths as strings and the usual optional/result wrappers. */
module Common {

  /** A filesystem path or a bare file name, as the script handles them: plain strings. */
  type Path = string

  datatype Option<+T> = None | Some(value: T)

  /** The outcome of an operation that the script guards with `try`/`except`. */
  datatype Result<+T, +E> = Ok(value: T) | Err(error: E)

  /** True when no element of `s` occurs twice. */
  predicate Distinct<T(==)>(s: seq<T>)
  {
    forall i, j :: 0 <= i < j < |s| ==> s[i] != s[j]
  }
}
