/** Individuals of the population and the configuration of the search. */
module Individuals {
  import opened Wrappers
  import opened Genome

  /** One candidate square with its fitness (0 means magic) and its lineage:
      the parents' squares, the two positions swapped by mutation, and the
      crossover's description of what it did. */
  datatype Individual = Individual(
    square: seq<int>,
    fitness: int,
    parents: Option<(seq<int>, seq<int>)>,
    mutationPoints: Option<(nat, nat)>,
    details: string,
    belongsToElite: bool)

  /** What a crossover produces: children and a textual description. */
  datatype CrossoverResult = CrossoverResult(children: seq<seq<int>>, details: string)

  /** A crossover operator: parents, minimum and maximum crossover point, and
      the random seed that stands for the operator's own draws. */
  type CrossoverOperator = (seq<int>, seq<int>, int, int, nat) -> CrossoverResult

  /** Scores a square; 0 means every line sums to the magic constant. */
  type FitnessCalculator = seq<int> -> int

  /** The finder's final fields. */
  datatype Config = Config(
    size: nat,
    populationSize: nat,
    eliteSize: nat,
    eliteDeathPeriod: int,
    allowDuplicates: bool,
    minimumCrossoverPoint: int,
    maximumCrossoverPoint: int,
    fitness: FitnessCalculator,
    crossover: CrossoverOperator)
  {
    /** Number of cells of a square (Math.pow(size, 2) in integers). */
    function ArraySize(): nat { size * size }

    /** Runs the crossover operator with the configured bounds. */
    function Cross(p1: seq<int>, p2: seq<int>, seed: nat): CrossoverResult {
      crossover(p1, p2, minimumCrossoverPoint, maximumCrossoverPoint, seed)
    }
  }

  /** The assumption made about the crossover operator, whose source is not
      part of this model: children of two permutations are permutations. */
  ghost predicate CrossoverKeepsPermutations(cfg: Config) {
    forall p1, p2, seed: nat, k ::
      IsPermutation(p1, cfg.ArraySize()) && IsPermutation(p2, cfg.ArraySize()) &&
      0 <= k < |cfg.Cross(p1, p2, seed).children| ==>
      IsPermutation(cfg.Cross(p1, p2, seed).children[k], cfg.ArraySize())
  }

  /** Every individual of s holds a permutation of 1..n. */
  predicate AllPermutations(s: seq<Individual>, n: nat) {
    forall k :: 0 <= k < |s| ==> IsPermutation(s[k].square, n)
  }

  /** The squares of the individuals of s (the found set and the duplicate
      check compare individuals by square only). */
  function SquaresOf(s: seq<Individual>): set<seq<int>> {
    set k | 0 <= k < |s| :: s[k].square
  }

  lemma SquaresOfAppend(s: seq<Individual>, x: Individual)
    ensures SquaresOf(s + [x]) == SquaresOf(s) + {x.square}
  {
    var t := s + [x];
    forall g | g in SquaresOf(t) ensures g in SquaresOf(s) + {x.square} {
      var j :| 0 <= j < |t| && t[j].square == g;
      if j < |s| { assert t[j] == s[j]; }
    }
    forall g | g in SquaresOf(s) ensures g in SquaresOf(t) {
      var j :| 0 <= j < |s| && s[j].square == g;
      assert t[j] == s[j];
    }
    assert t[|s|] == x;
  }

  /** No two individuals of s hold the same square. */
  predicate NoDuplicateSquares(s: seq<Individual>) {
    forall i, j :: 0 <= i < j < |s| ==> s[i].square != s[j].square
  }
}
