/** Small value types shared by the modules of this model. */
module Wrappers {

  /** A value that may be absent: a missing map entry, a failed check, a falsy JavaScript result. */
  datatype Option<+T> = None | Some(value: T)

  /** The outcome of a step that either produces a value or reports why it could not. */
  datatype Result<+T, +E> = Ok(value: T) | Err(error: E)

  /** No element of `s` occurs twice. */
  ghost predicate Distinct<T>(s: seq<T>)
  {
    forall i, j :: 0 <= i < j < |s| ==> s[i] != s[j]
  }
}
