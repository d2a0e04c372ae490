/** What the lists of threads, of list elements and of free blocks have in common. */
module Sequences {
  ghost predicate NoDup<T>(q: seq<T>) {
    forall i, j :: 0 <= i < j < |q| ==> q[i] != q[j]
  }
}
