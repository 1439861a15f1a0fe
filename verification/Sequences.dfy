/** What lists of nodes, jobs, threads and headers have in common. */
module Sequences {

  /** Nothing occurs twice. */
  ghost predicate NoDup<T>(s: seq<T>) {
    forall i, j :: 0 <= i < j < |s| ==> s[i] != s[j]
  }
}
