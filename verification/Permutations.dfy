/** Tables that list 0..n-1, each once: the index vector of the tree and the scan tables. */
module Permutations {

  ghost predicate Permutation(table: seq<nat>, n: nat) {
    && |table| == n
    && (forall i :: 0 <= i < n ==> table[i] < n)
    && (forall i, j :: 0 <= i < j < n ==> table[i] != table[j])
    && (forall x :: 0 <= x < n ==> x in table)
  }
}
