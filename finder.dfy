/** The search engine as the object the Java code runs: MagicSquareFinder,
    whose population list, found set and counters change in place. */
module Finder {
  import opened Wrappers
  import opened Genome
  import opened Individuals
  import opened FitnessSort
  import opened Mutation
  import opened Selection
  import opened Generation

  /** The state of the loop of addAndPublishMagicSquares after the first i
      fitness-0 members: their squares are recorded, and the counter is reset
      if one of them was new. */
  predicate PublishedUpTo(found0: set<seq<int>>, counter0: int, ms: seq<Individual>, i: nat,
                          found: set<seq<int>>, counter: int)
    requires i <= |ms|
  {
    found == found0 + SquaresOf(ms[..i]) &&
    counter == if SquaresOf(ms[..i]) <= found0 then counter0 else 0
  }

  /** One pass of that loop keeps its invariant. */
  lemma PublishOne(found0: set<seq<int>>, counter0: int, ms: seq<Individual>, i: nat,
                   found: set<seq<int>>, counter: int)
    requires i < |ms| && PublishedUpTo(found0, counter0, ms, i, found, counter)
    ensures PublishedUpTo(found0, counter0, ms, i + 1, found + {ms[i].square},
                          if ms[i].square !in found then 0 else counter)
  {
    assert ms[..i + 1] == ms[..i] + [ms[i]];
    SquaresOfAppend(ms[..i], ms[i]);
  }

  lemma PublishedAll(s: State, found: set<seq<int>>, counter: int)
    requires PublishedUpTo(s.found, s.stagnation, ZeroFitness(s.population), |ZeroFitness(s.population)|, found, counter)
    ensures Publish(s) == s.(found := found, stagnation := counter)
  {
    var ms := ZeroFitness(s.population);
    assert ms[..|ms|] == ms;
  }

  class MagicSquareFinder {
    const size: nat
    const arraySize: nat
    const populationSize: nat
    const eliteSize: nat
    const eliteDeathPeriod: int
    const minimumCrossoverPoint: int
    const maximumCrossoverPoint: int
    const allowDuplicates: bool
    const fitnessCalculator: FitnessCalculator
    const crossoverOperator: CrossoverOperator

    var magicSquaresFound: set<seq<int>>
    var population: seq<Individual>
    var generationCount: int
    var amountOfGenerationsSinceLastNewMagicSquare: int

    /** The final fields as one value. */
    function Configuration(): Config {
      Config(size, populationSize, eliteSize, eliteDeathPeriod, allowDuplicates,
             minimumCrossoverPoint, maximumCrossoverPoint, fitnessCalculator, crossoverOperator)
    }

    /** The mutable fields as one value. */
    function CurrentState(): State
      reads this
    {
      State(population, magicSquaresFound, generationCount, amountOfGenerationsSinceLastNewMagicSquare)
    }

    /** The invariant of the finder: every square of the population is a
        permutation of 1..size², and so stays under a crossover that keeps
        permutations. */
    ghost predicate Valid()
      reads this
    {
      arraySize == size * size &&
      CrossoverKeepsPermutations(Configuration()) &&
      AllPermutations(population, arraySize)
    }

    constructor (size: nat, populationSize: nat, eliteSize: nat, eliteDeathPeriod: int,
                 allowDuplicates: bool, minimumCrossoverPoint: int, maximumCrossoverPoint: int,
                 fitnessCalculator: FitnessCalculator, crossoverOperator: CrossoverOperator)
      requires CrossoverKeepsPermutations(Config(size, populationSize, eliteSize, eliteDeathPeriod,
        allowDuplicates, minimumCrossoverPoint, maximumCrossoverPoint, fitnessCalculator, crossoverOperator))
      ensures Valid()
      ensures this.size == size && this.arraySize == size * size && this.populationSize == populationSize
      ensures this.eliteSize == eliteSize && this.eliteDeathPeriod == eliteDeathPeriod
      ensures this.allowDuplicates == allowDuplicates
      ensures this.minimumCrossoverPoint == minimumCrossoverPoint && this.maximumCrossoverPoint == maximumCrossoverPoint
      ensures this.fitnessCalculator == fitnessCalculator && this.crossoverOperator == crossoverOperator
      ensures magicSquaresFound == {} && population == []
      ensures generationCount == 0 && amountOfGenerationsSinceLastNewMagicSquare == 0
    {
      this.size := size;
      this.arraySize := size * size;
      this.populationSize := populationSize;
      this.eliteSize := eliteSize;
      this.eliteDeathPeriod := eliteDeathPeriod;
      this.allowDuplicates := allowDuplicates;
      this.minimumCrossoverPoint := minimumCrossoverPoint;
      this.maximumCrossoverPoint := maximumCrossoverPoint;
      this.fitnessCalculator := fitnessCalculator;
      this.crossoverOperator := crossoverOperator;
      magicSquaresFound := {};
      population := [];
      generationCount := 0;
      amountOfGenerationsSinceLastNewMagicSquare := 0;
    }

    /** run: resets the counters, builds the initial population from the
        generator's squares, then sorts, publishes and, while nothing has been
        found, creates a new generation from the next draws. The result is
        None when the loop broke out because a square was found. */
    method Run(initialSquares: seq<seq<int>>, generations: seq<GenerationDraws>) returns (failure: Option<Error>)
      requires Valid()
      requires |initialSquares| == populationSize
      requires forall k :: 0 <= k < |initialSquares| ==> IsPermutation(initialSquares[k], arraySize)
      modifies this
      ensures var expected := Search(Configuration(),
        State(InitialPopulation(Configuration(), initialSquares), old(magicSquaresFound), 0, 0), generations);
        (failure.None? <==> expected.Ok?) &&
        (failure.None? ==> CurrentState() == expected.value && magicSquaresFound != {} && Valid()) &&
        (failure.Some? ==> failure.value == expected.error)
    {
      generationCount, amountOfGenerationsSinceLastNewMagicSquare := 0, 0;
      GenerateInitialPopulation(initialSquares);
      ghost var expected := Search(Configuration(), CurrentState(), generations);
      var rest := generations;
      while true
        invariant Valid()
        invariant Search(Configuration(), CurrentState(), rest) == expected
        decreases |rest|
      {
        ghost var before := CurrentState();
        SortAndPublish();
        if |magicSquaresFound| > 0 {
          SearchStopsWhenFound(Configuration(), before, rest);
          return None;
        }
        if rest == [] {
          SearchOutOfDraws(Configuration(), before);
          return Some(DrawsExhausted);
        }
        SearchUnfold(Configuration(), before, rest);
        failure := CreateNewGeneration(rest[0]);
        if failure.Some? {
          return;
        }
        rest := rest[1..];
      }
    }

    /** The top of the loop of run: the population sorted by fitness, then
        addAndPublishMagicSquares. */
    method SortAndPublish()
      requires Valid()
      modifies this`population, this`magicSquaresFound, this`amountOfGenerationsSinceLastNewMagicSquare
      ensures Valid() && CurrentState() == Evaluate(old(CurrentState()))
    {
      EvaluateKeepsPermutations(CurrentState(), arraySize);
      population := SortByFitness(population);
      AddAndPublishMagicSquares();
    }

    /** generateInitialPopulation, with the generator's squares as input. */
    method GenerateInitialPopulation(squares: seq<seq<int>>)
      requires Valid()
      requires |squares| == populationSize
      requires forall k :: 0 <= k < |squares| ==> IsPermutation(squares[k], arraySize)
      modifies this`population
      ensures Valid()
      ensures population == InitialPopulation(Configuration(), squares)
    {
      population := [];
      for i := 0 to populationSize
        invariant population == InitialPopulation(Configuration(), squares[..i])
      {
        population := population + [Individual(squares[i], fitnessCalculator(squares[i]), None, None, "", false)];
      }
      assert squares[..populationSize] == squares;
    }

    /** addAndPublishMagicSquares: adds every fitness-0 member's square to the
        found set, resetting the counter whenever one is new. */
    method AddAndPublishMagicSquares()
      modifies this`magicSquaresFound, this`amountOfGenerationsSinceLastNewMagicSquare
      ensures CurrentState() == Publish(old(CurrentState()))
    {
      var magicSquares := ZeroFitness(population);
      ghost var s := CurrentState();
      for i := 0 to |magicSquares|
        invariant PublishedUpTo(s.found, s.stagnation, magicSquares, i,
                                magicSquaresFound, amountOfGenerationsSinceLastNewMagicSquare)
      {
        PublishOne(s.found, s.stagnation, magicSquares, i, magicSquaresFound, amountOfGenerationsSinceLastNewMagicSquare);
        var added := magicSquares[i].square !in magicSquaresFound;
        magicSquaresFound := magicSquaresFound + {magicSquares[i].square};
        if added {
          amountOfGenerationsSinceLastNewMagicSquare := 0;
        }
      }
      PublishedAll(s, magicSquaresFound, amountOfGenerationsSinceLastNewMagicSquare);
    }

    /** createMatingPool: draws pairs until populationSize / 2 entries are kept. */
    method CreateMatingPool(draws: seq<(nat, nat)>) returns (r: Result<seq<Individual>>)
      ensures r == MatingPool(population, draws, populationSize / 2, 0, [])
    {
      var matingPool: seq<Individual> := [];
      var poolSize := populationSize / 2;
      var k := 0;
      while |matingPool| < poolSize
        invariant k <= |draws| || |population| == 0
        invariant MatingPool(population, draws, poolSize, k, matingPool) == MatingPool(population, draws, poolSize, 0, [])
        decreases |draws| - k
      {
        if |population| == 0 {
          return Err(IllegalArgument);
        }
        if k >= |draws| {
          return Err(DrawsExhausted);
        }
        var i1, i2 := draws[k].0 % |population|, draws[k].1 % |population|;
        ghost var picked, poolBefore := Pick(population, draws[k]), matingPool;
        k := k + 1;
        if i1 == i2 {
          assert matingPool + picked == matingPool;
          continue;
        }
        matingPool := matingPool + [if population[i1].fitness > population[i2].fitness then population[i1] else population[i2]];
        assert matingPool == poolBefore + picked;
      }
      return Ok(matingPool);
    }

    /** createNewGeneration. The result is None on success and otherwise the
        exception that escapes (or the draws running out). */
    method CreateNewGeneration(draws: GenerationDraws) returns (failure: Option<Error>)
      requires Valid()
      modifies this`population, this`generationCount, this`amountOfGenerationsSinceLastNewMagicSquare
      ensures var expected := NextGeneration(Configuration(), old(CurrentState()), draws);
        (failure.None? <==> expected.Ok?) &&
        (failure.None? ==> CurrentState() == expected.value && Valid()) &&
        (failure.Some? ==> failure.value == expected.error)
    {
      ghost var s := CurrentState();
      generationCount := generationCount + 1;
      failure := KillElite();
      if failure.Some? {
        return;
      }
      failure := BreedPopulation(draws);
      if failure.None? {
        GenerationKeepsPermutations(Configuration(), s, draws);
      }
    }

    /** The rest of createNewGeneration: the mating pool, elitism and the
        refill. */
    method BreedPopulation(draws: GenerationDraws) returns (failure: Option<Error>)
      requires arraySize == size * size
      modifies this`population
      ensures var expected := Breed(Configuration(), old(population), draws);
        (failure.None? <==> expected.Ok?) &&
        (failure.None? ==> population == expected.value) &&
        (failure.Some? ==> failure.value == expected.error)
    {
      var pool := CreateMatingPool(draws.pool);
      if pool.Err? {
        return Some(pool.error);
      }
      var matingPool := pool.value;
      failure := ApplyElitism();
      if failure.Some? {
        return;
      }
      failure := RefillPopulation(matingPool, draws.refill);
    }

    /** Elite death: once the search has stagnated for more than
        eliteDeathPeriod generations, the first eliteSize individuals are
        removed and the stagnation counter restarts. */
    method KillElite() returns (failure: Option<Error>)
      modifies this`population, this`amountOfGenerationsSinceLastNewMagicSquare
      ensures var expected := EliteDeath(Configuration(), old(population), old(amountOfGenerationsSinceLastNewMagicSquare));
        (failure.None? <==> expected.Ok?) &&
        (failure.None? ==> (population, amountOfGenerationsSinceLastNewMagicSquare) == expected.value) &&
        (failure.Some? ==> failure.value == expected.error)
    {
      if eliteDeathPeriod != 0 && amountOfGenerationsSinceLastNewMagicSquare > eliteDeathPeriod {
        if eliteSize > |population| {
          return Some(IndexOutOfBounds);
        }
        population := population[eliteSize..];
        amountOfGenerationsSinceLastNewMagicSquare := 0;
      } else {
        amountOfGenerationsSinceLastNewMagicSquare := amountOfGenerationsSinceLastNewMagicSquare + 1;
      }
      return None;
    }

    /** Elitism: subList(eliteSize, populationSize).clear(), then the rest
        flagged elite; the IndexOutOfBoundsException of a short list is
        caught and leaves the list as it is. */
    method ApplyElitism() returns (failure: Option<Error>)
      modifies this`population
      ensures var expected := Elitism(Configuration(), old(population));
        (failure.None? <==> expected.Ok?) &&
        (failure.None? ==> population == expected.value) &&
        (failure.Some? ==> failure.value == expected.error)
    {
      if populationSize > |population| {
        // subList throws IndexOutOfBoundsException, which is caught
      } else if eliteSize > populationSize {
        return Some(IllegalArgument);
      } else {
        population := population[..eliteSize] + population[populationSize..];
        MarkAllElite();
      }
      return None;
    }

    /** population.forEach(individual -> individual.setBelongsToElite(true)). */
    method MarkAllElite()
      modifies this`population
      ensures population == MarkElite(old(population))
    {
      for k := 0 to |population|
        invariant |population| == |old(population)|
        invariant forall j :: 0 <= j < k ==> population[j] == old(population)[j].(belongsToElite := true)
        invariant forall j :: k <= j < |population| ==> population[j] == old(population)[j]
      {
        population := population[k := population[k].(belongsToElite := true)];
      }
    }

    /** The refill loop of createNewGeneration. */
    method RefillPopulation(matingPool: seq<Individual>, draws: seq<RefillDraw>) returns (failure: Option<Error>)
      requires arraySize == size * size
      modifies this`population
      ensures var expected := Refill(Configuration(), old(population), matingPool, draws, 0);
        (failure.None? <==> expected.Ok?) &&
        (failure.None? ==> population == expected.value) &&
        (failure.Some? ==> failure.value == expected.error)
    {
      var k := 0;
      while |population| < populationSize
        invariant k <= |draws|
        invariant Refill(Configuration(), population, matingPool, draws, k) ==
                  Refill(Configuration(), old(population), matingPool, draws, 0)
        decreases |draws| - k
      {
        if |matingPool| == 0 {
          return Some(IllegalArgument);
        }
        if k >= |draws| {
          return Some(DrawsExhausted);
        }
        var d := draws[k];
        var i1, i2 := matingPool[d.first % |matingPool|], matingPool[d.second % |matingPool|];
        var children := CrossoverAndMutate(i1, i2, d);
        if children.Err? {
          return Some(children.error);
        }
        if allowDuplicates {
          population := population + children.value;
        } else {
          AddIfNew(children.value);
        }
        k := k + 1;
      }
      return None;
    }

    /** The duplicate-rejecting branch of the refill loop: each child is
        compared with every member present at that moment. */
    method AddIfNew(children: seq<Individual>)
      modifies this`population
      ensures population == AddNew(old(population), children)
    {
      for c := 0 to |children|
        invariant AddNew(population, children[c..]) == AddNew(old(population), children)
      {
        var duplicate := IsPresent(children[c]);
        AddNewUnfold(population, children, c);
        if !duplicate {
          population := population + [children[c]];
        }
      }
    }

    /** The inner loop of the refill: whether some member of the population
        has the child's square. */
    method IsPresent(child: Individual) returns (duplicate: bool)
      ensures duplicate <==> child.square in SquaresOf(population)
    {
      var j := 0;
      while j < |population|
        invariant 0 <= j <= |population|
        invariant forall m :: 0 <= m < j ==> population[m].square != child.square
      {
        if child.square == population[j].square {
          return true;
        }
        j := j + 1;
      }
      return false;
    }

    /** crossoverAndMutate: crosses the parents, mutates the children, then
        wraps them as Individuals. */
    method CrossoverAndMutate(parent1: Individual, parent2: Individual, d: RefillDraw) returns (r: Result<seq<Individual>>)
      requires arraySize == size * size
      ensures r == Offspring(Configuration(), parent1, parent2, d)
    {
      var result := crossoverOperator(parent1.square, parent2.square, minimumCrossoverPoint, maximumCrossoverPoint, d.seed);
      var mutation := MutateChildren(result.children, d.mutations);
      if mutation.Err? {
        return Err(mutation.error);
      }
      var mutated := mutation.value;
      var individuals: seq<Individual> := [];
      for i := 0 to |mutated|
        invariant individuals == Wrap(Configuration(), mutated[..i], parent1, parent2, result.details)
      {
        individuals := individuals + [Individual(mutated[i].0, fitnessCalculator(mutated[i].0),
          Some((parent1.square, parent2.square)), mutated[i].1, result.details, false)];
      }
      assert mutated[..|mutated|] == mutated;
      return Ok(individuals);
    }

    /** The mutation loop of crossoverAndMutate: child i is copied into an
        array, mutated in place with draw i, and paired with its mutation
        points. */
    method MutateChildren(children: seq<seq<int>>, draws: seq<MutationDraw>) returns (r: Result<seq<(seq<int>, Option<(nat, nat)>)>>)
      ensures r == MutateAll(children, draws, arraySize)
    {
      var mutated: seq<(seq<int>, Option<(nat, nat)>)> := [];
      MutatedStart(children, draws, arraySize);
      for i := 0 to |children|
        invariant i <= |draws|
        invariant MutatedUpTo(children, draws, arraySize, i, mutated)
      {
        if i >= |draws| {
          MutatedShort(children, draws, arraySize, i, mutated);
          return Err(DrawsExhausted);
        }
        var c := children[i];
        var child := new int[|c|](j requires 0 <= j < |c| => c[j]);
        assert child[..] == c;
        var points := MutateChild(child, draws[i]);
        MutatedStep(children, draws, arraySize, i, mutated);
        if points.Err? {
          return Err(points.error);
        }
        mutated := mutated + [(child[..], points.value)];
      }
      MutatedEnd(children, draws, arraySize, mutated);
      return Ok(mutated);
    }

    /** The mutation of one child array: with probability decided by the
        caller, draw positions until two differ and swap them in place. */
    method MutateChild(child: array<int>, d: MutationDraw) returns (r: Result<Option<(nat, nat)>>)
      modifies child
      ensures match Mutate(old(child[..]), arraySize, d)
        case Ok((c, points)) => r == Ok(points) && child[..] == c
        case Err(e) => r == Err(e) && child[..] == old(child[..])
    {
      if !d.fires {
        return Ok(None);
      }
      if arraySize == 0 {
        return Err(IllegalArgument);
      }
      var k := 0;
      while k < |d.positions| && d.positions[k].0 % arraySize == d.positions[k].1 % arraySize
        invariant 0 <= k <= |d.positions|
        invariant FirstDistinct(d.positions[k..], arraySize) == FirstDistinct(d.positions, arraySize)
      {
        assert d.positions[k..][1..] == d.positions[k + 1..];
        k := k + 1;
      }
      if k == |d.positions| {
        return Err(DrawsExhausted);
      }
      var index1, index2 := d.positions[k].0 % arraySize, d.positions[k].1 % arraySize;
      if index1 >= child.Length || index2 >= child.Length {
        return Err(IndexOutOfBounds);
      }
      var aux := child[index1];
      child[index1] := child[index2];
      child[index2] := aux;
      return Ok(Some((index1, index2)));
    }
  }
}
