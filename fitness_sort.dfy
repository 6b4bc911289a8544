/** The stable sort of the population by ascending fitness
    (population.sort(Comparator.comparingInt(Individual::getFitness))). */
module FitnessSort {
  import opened Individuals

  predicate SortedByFitness(s: seq<Individual>) {
    forall i, j :: 0 <= i < j < |s| ==> s[i].fitness <= s[j].fitness
  }

  /** The individuals of s whose fitness is f, in their order in s. Two
      sequences agree on it for every f exactly when they order individuals of
      equal fitness alike, which is what a stable sort keeps. */
  function WithFitness(s: seq<Individual>, f: int): seq<Individual> {
    if s == [] then []
    else WithFitness(s[..|s| - 1], f) + (if s[|s| - 1].fitness == f then [s[|s| - 1]] else [])
  }

  /** Inserts x into t after every element whose fitness is at most x's. */
  function Insert(t: seq<Individual>, x: Individual): (r: seq<Individual>)
    ensures |r| == |t| + 1
  {
    if t == [] then [x]
    else if t[|t| - 1].fitness <= x.fitness then t + [x]
    else Insert(t[..|t| - 1], x) + [t[|t| - 1]]
  }

  /** Insertion sort, inserting the last element into the sorted prefix. */
  function SortByFitness(s: seq<Individual>): (r: seq<Individual>)
    ensures |r| == |s|
  {
    if s == [] then [] else Insert(SortByFitness(s[..|s| - 1]), s[|s| - 1])
  }

  lemma {:induction false} WithFitnessAppend(s: seq<Individual>, x: Individual, f: int)
    ensures WithFitness(s + [x], f) == WithFitness(s, f) + (if x.fitness == f then [x] else [])
  {
    assert (s + [x])[..|s + [x]| - 1] == s;
  }

  lemma {:induction false} InsertMultiset(t: seq<Individual>, x: Individual)
    ensures multiset(Insert(t, x)) == multiset(t) + multiset{x}
  {
    if t != [] && t[|t| - 1].fitness > x.fitness {
      InsertMultiset(t[..|t| - 1], x);
      LastSplit(t);
    }
  }

  lemma {:induction false} InsertSorted(t: seq<Individual>, x: Individual)
    requires SortedByFitness(t)
    ensures SortedByFitness(Insert(t, x))
  {
    if t != [] && t[|t| - 1].fitness > x.fitness {
      var init, last := t[..|t| - 1], t[|t| - 1];
      InsertSorted(init, x);
      InsertBound(init, x, last.fitness);
    }
  }

  /** A bound on the fitness of t and of x bounds the fitness of the result. */
  lemma {:induction false} InsertBound(t: seq<Individual>, x: Individual, b: int)
    requires forall i :: 0 <= i < |t| ==> t[i].fitness <= b
    requires x.fitness <= b
    ensures forall i :: 0 <= i < |Insert(t, x)| ==> Insert(t, x)[i].fitness <= b
  {
    if t != [] && t[|t| - 1].fitness > x.fitness {
      InsertBound(t[..|t| - 1], x, b);
    }
  }

  lemma {:induction false} InsertStable(t: seq<Individual>, x: Individual, f: int)
    ensures WithFitness(Insert(t, x), f) == WithFitness(t, f) + (if x.fitness == f then [x] else [])
  {
    if t == [] {
      WithFitnessAppend([], x, f);
    } else if t[|t| - 1].fitness <= x.fitness {
      WithFitnessAppend(t, x, f);
    } else {
      var init, last := t[..|t| - 1], t[|t| - 1];
      InsertStable(init, x, f);
      WithFitnessAppend(Insert(init, x), last, f);
      LastSplit(t);
      WithFitnessAppend(init, last, f);
    }
  }

  /** The sort yields a permutation of its input, ordered by non-decreasing
      fitness, that keeps individuals of equal fitness in their old order. */
  lemma SortByFitnessIsStableSort(s: seq<Individual>)
    ensures SortedByFitness(SortByFitness(s))
    ensures multiset(SortByFitness(s)) == multiset(s)
    ensures forall f :: WithFitness(SortByFitness(s), f) == WithFitness(s, f)
  {
    SortIsSorted(s);
    SortIsPermutation(s);
    forall f ensures WithFitness(SortByFitness(s), f) == WithFitness(s, f) {
      SortIsStable(s, f);
    }
  }

  lemma {:induction false} SortIsSorted(s: seq<Individual>)
    ensures SortedByFitness(SortByFitness(s))
  {
    if s != [] {
      SortIsSorted(s[..|s| - 1]);
      InsertSorted(SortByFitness(s[..|s| - 1]), s[|s| - 1]);
    }
  }

  lemma {:induction false} SortIsPermutation(s: seq<Individual>)
    ensures multiset(SortByFitness(s)) == multiset(s)
  {
    if s != [] {
      var init, last := s[..|s| - 1], s[|s| - 1];
      SortIsPermutation(init);
      InsertMultiset(SortByFitness(init), last);
      LastSplit(s);
    }
  }

  lemma {:induction false} SortIsStable(s: seq<Individual>, f: int)
    ensures WithFitness(SortByFitness(s), f) == WithFitness(s, f)
  {
    if s != [] {
      var init, last := s[..|s| - 1], s[|s| - 1];
      SortIsStable(init, f);
      InsertStable(SortByFitness(init), last, f);
      LastSplit(s);
      WithFitnessAppend(init, last, f);
    }
  }

  lemma LastSplit<T>(s: seq<T>)
    requires s != []
    ensures s == s[..|s| - 1] + [s[|s| - 1]]
  {
  }
}
