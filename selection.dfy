/** The mating pool (MagicSquareFinder.createMatingPool): a pairwise
    tournament over the current population that keeps the candidate with the
    HIGHER fitness, ties going to the second draw. */
module Selection {
  import opened Wrappers
  import opened Individuals

  /** The outcome of one pair of raw draws over a non-empty population: no
      entry when both draws name the same individual, else the kept one. */
  function Pick(pop: seq<Individual>, d: (nat, nat)): seq<Individual>
    requires |pop| > 0
  {
    var i1, i2 := d.0 % |pop|, d.1 % |pop|;
    if i1 == i2 then [] else [if pop[i1].fitness > pop[i2].fitness then pop[i1] else pop[i2]]
  }

  /** The while loop from draw k on with the pool built so far: it stops once
      the pool holds poolSize entries; drawing from an empty population is
      taken to raise IllegalArgument, as Random.nextInt(0) does; running out
      of draws first is DrawsExhausted. */
  function MatingPool(pop: seq<Individual>, draws: seq<(nat, nat)>, poolSize: nat, k: nat, pool: seq<Individual>): Result<seq<Individual>>
    decreases |draws| - k
  {
    if |pool| >= poolSize then Ok(pool)
    else if |pop| == 0 then Err(IllegalArgument)
    else if k >= |draws| then Err(DrawsExhausted)
    else MatingPool(pop, draws, poolSize, k + 1, pool + Pick(pop, draws[k]))
  }

  /** x comes out of draw pair d: the two draws name different individuals, x
      is one of them, its fitness is the larger of the two, and on a tie it is
      the second. */
  ghost predicate KeptFromPair(pop: seq<Individual>, d: (nat, nat), x: Individual)
    requires |pop| > 0
  {
    var i1, i2 := d.0 % |pop|, d.1 % |pop|;
    i1 != i2 && (x == pop[i1] || x == pop[i2]) &&
    x.fitness >= pop[i1].fitness && x.fitness >= pop[i2].fitness &&
    (pop[i1].fitness == pop[i2].fitness ==> x == pop[i2])
  }

  ghost predicate FromSomeDraw(pop: seq<Individual>, draws: seq<(nat, nat)>, x: Individual) {
    |pop| > 0 && exists j :: 0 <= j < |draws| && KeptFromPair(pop, draws[j], x)
  }

  lemma {:induction false} MatingPoolFrom(pop: seq<Individual>, draws: seq<(nat, nat)>, poolSize: nat, k: nat, pool: seq<Individual>)
    requires |pool| <= poolSize
    requires forall m :: 0 <= m < |pool| ==> FromSomeDraw(pop, draws, pool[m])
    requires MatingPool(pop, draws, poolSize, k, pool).Ok?
    ensures var r := MatingPool(pop, draws, poolSize, k, pool).value;
      |r| == poolSize && r[..|pool|] == pool &&
      forall m :: 0 <= m < |r| ==> FromSomeDraw(pop, draws, r[m])
    decreases |draws| - k
  {
    if |pool| < poolSize {
      var next := pool + Pick(pop, draws[k]);
      forall m | 0 <= m < |next| ensures FromSomeDraw(pop, draws, next[m]) {
        if m >= |pool| {
          assert KeptFromPair(pop, draws[k], next[m]);
        }
      }
      MatingPoolFrom(pop, draws, poolSize, k + 1, next);
      assert next[..|pool|] == pool;
    }
  }

  /** A completed pool has exactly poolSize entries, and each entry was kept
      from a pair of draws naming two different individuals of the population,
      as the one of higher fitness (the second on a tie). */
  lemma MatingPoolEntries(pop: seq<Individual>, draws: seq<(nat, nat)>, poolSize: nat)
    requires MatingPool(pop, draws, poolSize, 0, []).Ok?
    ensures var pool := MatingPool(pop, draws, poolSize, 0, []).value;
      |pool| == poolSize &&
      forall m :: 0 <= m < |pool| ==> FromSomeDraw(pop, draws, pool[m]) && pool[m] in pop
  {
    MatingPoolFrom(pop, draws, poolSize, 0, []);
  }

  lemma {:induction false} MatingPoolFailureFrom(pop: seq<Individual>, draws: seq<(nat, nat)>, poolSize: nat, k: nat, pool: seq<Individual>)
    requires MatingPool(pop, draws, poolSize, k, pool).Err?
    ensures |pool| < poolSize
    ensures MatingPool(pop, draws, poolSize, k, pool).error == IllegalArgument <==> |pop| == 0
    ensures MatingPool(pop, draws, poolSize, k, pool).error != IndexOutOfBounds
    decreases |draws| - k
  {
    if |pop| > 0 && k < |draws| {
      MatingPoolFailureFrom(pop, draws, poolSize, k + 1, pool + Pick(pop, draws[k]));
    }
  }

  /** The pool fails only when it is wanted: an empty population raises
      IllegalArgument, any other failure is the draws running out. */
  lemma MatingPoolFailure(pop: seq<Individual>, draws: seq<(nat, nat)>, poolSize: nat)
    requires MatingPool(pop, draws, poolSize, 0, []).Err?
    ensures poolSize > 0
    ensures MatingPool(pop, draws, poolSize, 0, []).error ==
      if |pop| == 0 then IllegalArgument else DrawsExhausted
  {
    MatingPoolFailureFrom(pop, draws, poolSize, 0, []);
  }
}
