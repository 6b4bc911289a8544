/** Genomes: an N×N grid stored row by row as a flat sequence that holds each
    of 1..N² exactly once. */
module Genome {

  /** The values 1..n in ascending order. */
  function Iota(n: nat): (r: seq<int>)
    ensures |r| == n
    ensures forall k :: 0 <= k < n ==> r[k] == k + 1
  {
    if n == 0 then [] else Iota(n - 1) + [n]
  }

  /** g holds every value of 1..n exactly once. */
  predicate IsPermutation(g: seq<int>, n: nat) {
    |g| == n && multiset(g) == multiset(Iota(n))
  }

  /** g with the values at positions i and j exchanged. */
  function Swap(g: seq<int>, i: nat, j: nat): (r: seq<int>)
    requires i < |g| && j < |g|
    ensures |r| == |g| && r[i] == g[j] && r[j] == g[i]
    ensures forall k :: 0 <= k < |g| && k != i && k != j ==> r[k] == g[k]
  {
    g[i := g[j]][j := g[i]]
  }

  /** Exchanging two cells keeps the multiset of values, so a permutation
      stays a permutation. */
  lemma SwapKeepsPermutation(g: seq<int>, n: nat, i: nat, j: nat)
    requires i < |g| && j < |g|
    ensures multiset(Swap(g, i, j)) == multiset(g)
    ensures IsPermutation(g, n) ==> IsPermutation(Swap(g, i, j), n)
  {
  }
}
