/** Small things that every component uses. */
module Wrappers {
  /** A value that may be missing. */
  datatype Option<+T> = None | Some(value: T)

  ghost predicate NoDups<T>(s: seq<T>) {
    forall i, j :: 0 <= i < j < |s| ==> s[i] != s[j]
  }

  /** One element comes before another. */
  ghost predicate Precedes<T>(order: seq<T>, first: T, second: T) {
    exists i, j :: 0 <= i < j < |order| && order[i] == first && order[j] == second
  }
}
