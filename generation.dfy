/** One generation of the search as a function of the finder's state and the
    random draws (MagicSquareFinder.run, addAndPublishMagicSquares and
    createNewGeneration). */
module Generation {
  import opened Wrappers
  import opened Genome
  import opened Individuals
  import opened FitnessSort
  import opened Mutation
  import opened Selection

  /** The finder's mutable fields: the population, the squares found so far,
      generationCount and amountOfGenerationsSinceLastNewMagicSquare. */
  datatype State = State(
    population: seq<Individual>,
    found: set<seq<int>>,
    generationCount: int,
    stagnation: int)

  /** The random choices of one createNewGeneration call. */
  datatype GenerationDraws = GenerationDraws(pool: seq<(nat, nat)>, refill: seq<RefillDraw>)

  /** The initial population built from the generator's squares. */
  function InitialPopulation(cfg: Config, squares: seq<seq<int>>): seq<Individual> {
    seq(|squares|, k requires 0 <= k < |squares| =>
      Individual(squares[k], cfg.fitness(squares[k]), None, None, "", false))
  }

  /** The members of pop with fitness 0, in order. */
  function ZeroFitness(pop: seq<Individual>): (r: seq<Individual>)
    ensures forall x :: x in r <==> x in pop && x.fitness == 0
  {
    if pop == [] then []
    else (if pop[0].fitness == 0 then [pop[0]] else []) + ZeroFitness(pop[1..])
  }

  /** addAndPublishMagicSquares: adds the squares of all fitness-0 members to
      the found set and resets the stagnation counter if one of them is new. */
  function Publish(s: State): State {
    var zero := SquaresOf(ZeroFitness(s.population));
    s.(found := s.found + zero, stagnation := if zero <= s.found then s.stagnation else 0)
  }

  /** The top of the loop of run: sort, then publish. */
  function Evaluate(s: State): State {
    Publish(s.(population := SortByFitness(s.population)))
  }

  /** The elite-death rule: once the counter exceeds a non-zero period, the
      first eliteSize individuals are removed and the counter restarts;
      otherwise the counter grows. subList(0, eliteSize) on a shorter list
      raises IndexOutOfBounds, which nothing catches. */
  function EliteDeath(cfg: Config, pop: seq<Individual>, stagnation: int): Result<(seq<Individual>, int)> {
    if cfg.eliteDeathPeriod != 0 && stagnation > cfg.eliteDeathPeriod then
      if cfg.eliteSize <= |pop| then Ok((pop[cfg.eliteSize..], 0)) else Err(IndexOutOfBounds)
    else Ok((pop, stagnation + 1))
  }

  function MarkElite(s: seq<Individual>): seq<Individual> {
    seq(|s|, k requires 0 <= k < |s| => s[k].(belongsToElite := true))
  }

  /** Elitism: subList(eliteSize, populationSize).clear() and then every
      remaining individual flagged elite. A list shorter than populationSize
      makes subList raise IndexOutOfBounds, which is caught, leaving the list
      as it was; eliteSize > populationSize makes it raise IllegalArgument,
      which escapes. Individuals beyond populationSize are kept. */
  function Elitism(cfg: Config, pop: seq<Individual>): Result<seq<Individual>> {
    if cfg.populationSize > |pop| then Ok(pop)
    else if cfg.eliteSize > cfg.populationSize then Err(IllegalArgument)
    else Ok(MarkElite(pop[..cfg.eliteSize] + pop[cfg.populationSize..]))
  }

  /** Appends each child whose square differs from that of every member
      present at that moment (including children appended just before). */
  function AddNew(pop: seq<Individual>, children: seq<Individual>): seq<Individual>
    decreases |children|
  {
    if children == [] then pop
    else AddNew(if children[0].square in SquaresOf(pop) then pop else pop + [children[0]], children[1..])
  }

  lemma AddNewUnfold(pop: seq<Individual>, children: seq<Individual>, c: nat)
    requires c < |children|
    ensures AddNew(pop, children[c..]) ==
      AddNew(if children[c].square in SquaresOf(pop) then pop else pop + [children[c]], children[c + 1..])
  {
    assert children[c..][0] == children[c] && children[c..][1..] == children[c + 1..];
  }

  function AddChildren(cfg: Config, pop: seq<Individual>, children: seq<Individual>): seq<Individual> {
    if cfg.allowDuplicates then pop + children else AddNew(pop, children)
  }

  /** The refill loop from refill draw k on: while the population is short it
      picks two parents from the pool, crosses and mutates them and adds the
      children. Picking from an empty pool is taken to raise IllegalArgument,
      as Random.nextInt(0) does. */
  function Refill(cfg: Config, pop: seq<Individual>, pool: seq<Individual>, draws: seq<RefillDraw>, k: nat): Result<seq<Individual>>
    decreases |draws| - k
  {
    if |pop| >= cfg.populationSize then Ok(pop)
    else if |pool| == 0 then Err(IllegalArgument)
    else if k >= |draws| then Err(DrawsExhausted)
    else
      var d := draws[k];
      match Offspring(cfg, pool[d.first % |pool|], pool[d.second % |pool|], d)
      case Err(e) => Err(e)
      case Ok(children) => Refill(cfg, AddChildren(cfg, pop, children), pool, draws, k + 1)
  }

  /** createNewGeneration after elite death: the mating pool is drawn from
      the survivors, elitism is applied, and the population is refilled from
      the pool. */
  function Breed(cfg: Config, survivors: seq<Individual>, draws: GenerationDraws): Result<seq<Individual>> {
    match MatingPool(survivors, draws.pool, cfg.populationSize / 2, 0, [])
    case Err(e) => Err(e)
    case Ok(pool) =>
      match Elitism(cfg, survivors)
      case Err(e) => Err(e)
      case Ok(kept) => Refill(cfg, kept, pool, draws.refill, 0)
  }

  /** createNewGeneration. */
  function NextGeneration(cfg: Config, s: State, draws: GenerationDraws): Result<State> {
    match EliteDeath(cfg, s.population, s.stagnation)
    case Err(e) => Err(e)
    case Ok((survivors, stagnation)) =>
      match Breed(cfg, survivors, draws)
      case Err(e) => Err(e)
      case Ok(next) => Ok(State(next, s.found, s.generationCount + 1, stagnation))
  }

  /** The loop of run, one GenerationDraws per generation: it stops as soon as
      the found set is non-empty. */
  function Search(cfg: Config, s: State, generations: seq<GenerationDraws>): Result<State>
    decreases |generations|
  {
    var e := Evaluate(s);
    if e.found != {} then Ok(e)
    else if generations == [] then Err(DrawsExhausted)
    else match NextGeneration(cfg, e, generations[0])
      case Err(x) => Err(x)
      case Ok(n) => Search(cfg, n, generations[1..])
  }

  // ---------------------------------------------------------------------
  // Recording solutions

  /** After publishing, the found set keeps every square it held, every
      fitness-0 member's square is in it, every added square is that of a
      fitness-0 member, and the counter is 0
      if a new square was added and unchanged otherwise. */
  lemma PublishRecordsSolutions(s: State)
    ensures var p := Publish(s);
      s.found <= p.found &&
      (forall k :: 0 <= k < |s.population| && s.population[k].fitness == 0 ==> s.population[k].square in p.found) &&
      (forall g :: g in p.found && g !in s.found ==>
         exists k :: 0 <= k < |s.population| && s.population[k].fitness == 0 && s.population[k].square == g) &&
      (p.stagnation == if p.found == s.found then s.stagnation else 0) &&
      p.population == s.population && p.generationCount == s.generationCount
  {
    var zero := ZeroFitness(s.population);
    forall k | 0 <= k < |s.population| && s.population[k].fitness == 0
      ensures s.population[k].square in Publish(s).found
    {
      var x := s.population[k];
      assert x in zero;
      var j :| 0 <= j < |zero| && zero[j] == x;
    }
    forall g | g in Publish(s).found && g !in s.found
      ensures exists k :: 0 <= k < |s.population| && s.population[k].fitness == 0 && s.population[k].square == g
    {
      var j :| 0 <= j < |zero| && zero[j].square == g;
      assert zero[j] in zero;
      var k :| 0 <= k < |s.population| && s.population[k] == zero[j];
    }
  }

  // ---------------------------------------------------------------------
  // Refill

  lemma AddNewAppendsOnlyNewSquares(pop: seq<Individual>, children: seq<Individual>)
    ensures var r := AddNew(pop, children);
      |r| >= |pop| && r[..|pop|] == pop &&
      (forall k :: |pop| <= k < |r| ==> r[k] in children) &&
      (forall c :: c in children ==> c.square in SquaresOf(r)) &&
      (NoDuplicateSquares(pop) ==> NoDuplicateSquares(r))
  {
    AddNewExtends(pop, children);
    AddNewFromChildren(pop, children);
    AddNewCovers(pop, children);
    if NoDuplicateSquares(pop) {
      AddNewNoDuplicates(pop, children);
    }
  }

  lemma {:induction false} AddNewExtends(pop: seq<Individual>, children: seq<Individual>)
    ensures |AddNew(pop, children)| >= |pop| && IsPrefix(pop, AddNew(pop, children))
    decreases |children|
  {
    if children != [] {
      var c := children[0];
      var next := if c.square in SquaresOf(pop) then pop else pop + [c];
      AddNewExtends(next, children[1..]);
      PrefixTrans(pop, next, AddNew(pop, children));
    }
  }

  lemma {:induction false} AddNewFromChildren(pop: seq<Individual>, children: seq<Individual>)
    ensures forall k :: |pop| <= k < |AddNew(pop, children)| ==> AddNew(pop, children)[k] in children
    decreases |children|
  {
    if children != [] {
      var c := children[0];
      var next := if c.square in SquaresOf(pop) then pop else pop + [c];
      AddNewFromChildren(next, children[1..]);
      AddNewExtends(next, children[1..]);
      var r := AddNew(pop, children);
      forall k | |pop| <= k < |r| ensures r[k] in children {
        if k < |next| { assert r[k] == next[k] == c; }
      }
    }
  }

  lemma {:induction false} AddNewCovers(pop: seq<Individual>, children: seq<Individual>)
    ensures forall c :: c in children ==> c.square in SquaresOf(AddNew(pop, children))
    decreases |children|
  {
    if children != [] {
      var c := children[0];
      var next := if c.square in SquaresOf(pop) then pop else pop + [c];
      AddOne(pop, c);
      AddNewCovers(next, children[1..]);
      AddNewExtends(next, children[1..]);
      PrefixSquares(next, AddNew(pop, children));
    }
  }

  lemma {:induction false} AddNewNoDuplicates(pop: seq<Individual>, children: seq<Individual>)
    requires NoDuplicateSquares(pop)
    ensures NoDuplicateSquares(AddNew(pop, children))
    decreases |children|
  {
    if children != [] {
      var c := children[0];
      var next := if c.square in SquaresOf(pop) then pop else pop + [c];
      AddOne(pop, c);
      AddNewNoDuplicates(next, children[1..]);
    }
  }

  /** a is a prefix of b. */
  predicate IsPrefix<T(==)>(a: seq<T>, b: seq<T>) {
    |a| <= |b| && b[..|a|] == a
  }

  lemma PrefixTrans<T>(a: seq<T>, b: seq<T>, c: seq<T>)
    requires (|a| == |b| && a == b) || (|b| == |a| + 1 && b[..|a|] == a)
    requires IsPrefix(b, c)
    ensures IsPrefix(a, c)
  {
    assert c[..|a|] == c[..|b|][..|a|];
  }

  /** A prefix has no more squares than the whole. */
  lemma PrefixSquares(a: seq<Individual>, b: seq<Individual>)
    requires IsPrefix(a, b)
    ensures SquaresOf(a) <= SquaresOf(b)
  {
    forall g | g in SquaresOf(a) ensures g in SquaresOf(b) {
      var j :| 0 <= j < |a| && a[j].square == g;
      assert b[j] == a[j];
    }
  }

  /** One step of AddNew: the child's square is present afterwards, and a
      duplicate-free population stays so. */
  lemma AddOne(pop: seq<Individual>, c: Individual)
    ensures var next := if c.square in SquaresOf(pop) then pop else pop + [c];
      c.square in SquaresOf(next) && SquaresOf(pop) <= SquaresOf(next) &&
      (NoDuplicateSquares(pop) ==> NoDuplicateSquares(next))
  {
    if c.square !in SquaresOf(pop) {
      var next := pop + [c];
      assert next[|pop|] == c;
      SquaresOfAppend(pop, c);
      if NoDuplicateSquares(pop) {
        forall i, j | 0 <= i < j < |next| ensures next[i].square != next[j].square {
          if j == |pop| { assert next[i].square in SquaresOf(pop); }
        }
      }
    }
  }

  /** What adding a batch of children does: it only appends, every appended
      individual is one of the children, a child is left out only because its
      square is already present, and a duplicate-free population stays so when
      duplicates are not allowed. With duplicates allowed every child is
      appended. */
  lemma AddChildrenOnlyAppends(cfg: Config, pop: seq<Individual>, children: seq<Individual>)
    ensures var r := AddChildren(cfg, pop, children);
      |r| >= |pop| && r[..|pop|] == pop &&
      (forall k :: |pop| <= k < |r| ==> r[k] in children) &&
      (forall c :: c in children ==> c.square in SquaresOf(r)) &&
      (cfg.allowDuplicates ==> r == pop + children) &&
      (!cfg.allowDuplicates && NoDuplicateSquares(pop) ==> NoDuplicateSquares(r))
  {
    if cfg.allowDuplicates {
      var r := pop + children;
      forall c | c in children ensures c.square in SquaresOf(r) {
        var j :| 0 <= j < |children| && children[j] == c;
        assert r[|pop| + j] == c;
      }
    } else {
      AddNewAppendsOnlyNewSquares(pop, children);
    }
  }

  /** A completed refill has at least populationSize members, begins with the
      population it started from, keeps every square a permutation when the
      pool's are, and keeps a duplicate-free population duplicate-free when
      duplicates are not allowed. */
  lemma {:induction false} RefillOnlyAppends(cfg: Config, pop: seq<Individual>, pool: seq<Individual>, draws: seq<RefillDraw>, k: nat)
    requires Refill(cfg, pop, pool, draws, k).Ok?
    ensures var r := Refill(cfg, pop, pool, draws, k).value;
      |r| >= cfg.populationSize && |r| >= |pop| && r[..|pop|] == pop &&
      (!cfg.allowDuplicates && NoDuplicateSquares(pop) ==> NoDuplicateSquares(r)) &&
      (CrossoverKeepsPermutations(cfg) && AllPermutations(pool, cfg.ArraySize()) &&
         AllPermutations(pop, cfg.ArraySize()) ==>
         AllPermutations(r, cfg.ArraySize()))
    decreases |draws| - k
  {
    if |pop| < cfg.populationSize {
      var d := draws[k];
      var p1, p2 := pool[d.first % |pool|], pool[d.second % |pool|];
      var children := Offspring(cfg, p1, p2, d).value;
      var next := AddChildren(cfg, pop, children);
      AddChildrenOnlyAppends(cfg, pop, children);
      RefillOnlyAppends(cfg, next, pool, draws, k + 1);
      var r := Refill(cfg, pop, pool, draws, k).value;
      assert r[..|pop|] == r[..|next|][..|pop|];
      if CrossoverKeepsPermutations(cfg) && AllPermutations(pool, cfg.ArraySize()) && AllPermutations(pop, cfg.ArraySize()) {
        OffspringArePermutations(cfg, p1, p2, d);
        AddChildrenKeepsPermutations(cfg, pop, children, cfg.ArraySize());
      }
    }
  }

  lemma AddChildrenKeepsPermutations(cfg: Config, pop: seq<Individual>, children: seq<Individual>, n: nat)
    requires AllPermutations(pop, n) && AllPermutations(children, n)
    ensures AllPermutations(AddChildren(cfg, pop, children), n)
  {
    var next := AddChildren(cfg, pop, children);
    AddChildrenOnlyAppends(cfg, pop, children);
    forall m | 0 <= m < |next| ensures IsPermutation(next[m].square, n) {
      if m < |pop| {
        assert next[m] == pop[m];
      } else {
        var j :| 0 <= j < |children| && children[j] == next[m];
      }
    }
  }

  // ---------------------------------------------------------------------
  // Elitism and elite death

  /** On a population of at least populationSize members and eliteSize <=
      populationSize, elitism keeps the first eliteSize members, flagged elite,
      followed by whatever lay beyond populationSize, also flagged. On a
      shorter population it changes nothing. With eliteSize > populationSize
      it fails. */
  lemma ElitismKeepsPrefix(cfg: Config, pop: seq<Individual>)
    ensures |pop| < cfg.populationSize ==> Elitism(cfg, pop) == Ok(pop)
    ensures cfg.populationSize < cfg.eliteSize && cfg.populationSize <= |pop| ==> Elitism(cfg, pop) == Err(IllegalArgument)
    ensures cfg.eliteSize <= cfg.populationSize <= |pop| ==>
      Elitism(cfg, pop).Ok? &&
      var r := Elitism(cfg, pop).value;
      |r| == cfg.eliteSize + |pop| - cfg.populationSize &&
      (forall k :: 0 <= k < |r| ==> r[k].belongsToElite) &&
      (forall k :: 0 <= k < cfg.eliteSize ==> r[k] == pop[k].(belongsToElite := true)) &&
      (forall k :: cfg.eliteSize <= k < |r| ==>
         r[k] == pop[k - cfg.eliteSize + cfg.populationSize].(belongsToElite := true))
  {
  }

  lemma MarkEliteKeepsSquares(s: seq<Individual>)
    ensures |MarkElite(s)| == |s|
    ensures forall k :: 0 <= k < |s| ==> MarkElite(s)[k].square == s[k].square
  {
  }

  lemma ElitismKeepsNoDuplicates(cfg: Config, pop: seq<Individual>)
    requires NoDuplicateSquares(pop)
    ensures Elitism(cfg, pop).Ok? ==> NoDuplicateSquares(Elitism(cfg, pop).value)
  {
    if cfg.eliteSize <= cfg.populationSize <= |pop| {
      var t := pop[..cfg.eliteSize] + pop[cfg.populationSize..];
      forall i, j | 0 <= i < j < |t| ensures t[i].square != t[j].square {
        var i', j' := if i < cfg.eliteSize then i else i - cfg.eliteSize + cfg.populationSize,
                      if j < cfg.eliteSize then j else j - cfg.eliteSize + cfg.populationSize;
        assert t[i] == pop[i'] && t[j] == pop[j'];
      }
      MarkEliteKeepsSquares(t);
    }
  }

  // ---------------------------------------------------------------------
  // One generation

  /** Each successful generation raises generationCount by exactly one, leaves
      the found set alone, applies the elite-death rule to the counter, and
      refills the population to at least populationSize members. */
  lemma GenerationCounters(cfg: Config, s: State, draws: GenerationDraws)
    requires NextGeneration(cfg, s, draws).Ok?
    ensures var n := NextGeneration(cfg, s, draws).value;
      n.generationCount == s.generationCount + 1 &&
      n.found == s.found &&
      (n.stagnation == if cfg.eliteDeathPeriod != 0 && s.stagnation > cfg.eliteDeathPeriod then 0
                       else s.stagnation + 1) &&
      |n.population| >= cfg.populationSize
  {
    var (survivors, _) := EliteDeath(cfg, s.population, s.stagnation).value;
    var pool := MatingPool(survivors, draws.pool, cfg.populationSize / 2, 0, []).value;
    var kept := Elitism(cfg, survivors).value;
    RefillOnlyAppends(cfg, kept, pool, draws.refill, 0);
  }

  /** A generation fails with IndexOutOfBounds when elite death is due but the
      population is shorter than eliteSize. */
  lemma EliteDeathOnShortPopulationFails(cfg: Config, s: State, draws: GenerationDraws)
    requires cfg.eliteDeathPeriod != 0 && s.stagnation > cfg.eliteDeathPeriod
    requires |s.population| < cfg.eliteSize
    ensures NextGeneration(cfg, s, draws) == Err(IndexOutOfBounds)
  {
  }

  /** Without elite death, on a population of at least populationSize members
      and eliteSize <= populationSize, the next population begins with the
      first eliteSize individuals, unchanged but for the elite flag. */
  lemma ElitesCarriedForward(cfg: Config, s: State, draws: GenerationDraws)
    requires !(cfg.eliteDeathPeriod != 0 && s.stagnation > cfg.eliteDeathPeriod)
    requires cfg.eliteSize <= cfg.populationSize <= |s.population|
    requires NextGeneration(cfg, s, draws).Ok?
    ensures var p := NextGeneration(cfg, s, draws).value.population;
      |p| >= cfg.eliteSize &&
      forall k :: 0 <= k < cfg.eliteSize ==> p[k] == s.population[k].(belongsToElite := true)
  {
    var pool := MatingPool(s.population, draws.pool, cfg.populationSize / 2, 0, []).value;
    ElitismKeepsPrefix(cfg, s.population);
    var kept := Elitism(cfg, s.population).value;
    RefillOnlyAppends(cfg, kept, pool, draws.refill, 0);
    var p := NextGeneration(cfg, s, draws).value.population;
    forall k | 0 <= k < cfg.eliteSize ensures p[k] == s.population[k].(belongsToElite := true) {
      assert p[k] == p[..|kept|][k];
    }
  }

  /** With elite death, when the survivors number fewer than populationSize
      (so elitism's exception is caught), the next population begins with the
      survivors exactly as they were: the first eliteSize individuals are gone
      and nobody is newly flagged. */
  lemma EliteDeathDropsElite(cfg: Config, s: State, draws: GenerationDraws)
    requires cfg.eliteDeathPeriod != 0 && s.stagnation > cfg.eliteDeathPeriod
    requires cfg.eliteSize <= |s.population| < cfg.populationSize + cfg.eliteSize
    requires NextGeneration(cfg, s, draws).Ok?
    ensures var p := NextGeneration(cfg, s, draws).value.population;
      |p| >= |s.population| - cfg.eliteSize &&
      p[..|s.population| - cfg.eliteSize] == s.population[cfg.eliteSize..]
  {
    var survivors := s.population[cfg.eliteSize..];
    var pool := MatingPool(survivors, draws.pool, cfg.populationSize / 2, 0, []).value;
    RefillOnlyAppends(cfg, survivors, pool, draws.refill, 0);
  }

  /** Every square of a successful generation is a permutation when every
      square of the population was (given the crossover assumption). */
  lemma GenerationKeepsPermutations(cfg: Config, s: State, draws: GenerationDraws)
    requires CrossoverKeepsPermutations(cfg)
    requires AllPermutations(s.population, cfg.ArraySize())
    requires NextGeneration(cfg, s, draws).Ok?
    ensures AllPermutations(NextGeneration(cfg, s, draws).value.population, cfg.ArraySize())
  {
    var (survivors, _) := EliteDeath(cfg, s.population, s.stagnation).value;
    EliteDeathKeepsPermutations(cfg, s.population, s.stagnation, cfg.ArraySize());
    var pool := MatingPool(survivors, draws.pool, cfg.populationSize / 2, 0, []).value;
    MatingPoolKeepsPermutations(survivors, draws.pool, cfg.populationSize / 2, cfg.ArraySize());
    var kept := Elitism(cfg, survivors).value;
    ElitismKeepsPrefix(cfg, survivors);
    RefillOnlyAppends(cfg, kept, pool, draws.refill, 0);
  }

  lemma EliteDeathKeepsPermutations(cfg: Config, pop: seq<Individual>, stagnation: int, n: nat)
    requires AllPermutations(pop, n) && EliteDeath(cfg, pop, stagnation).Ok?
    ensures AllPermutations(EliteDeath(cfg, pop, stagnation).value.0, n)
  {
    var survivors := EliteDeath(cfg, pop, stagnation).value.0;
    forall k | 0 <= k < |survivors| ensures IsPermutation(survivors[k].square, n) {
      if survivors != pop { assert survivors[k] == pop[k + cfg.eliteSize]; }
    }
  }

  lemma MatingPoolKeepsPermutations(pop: seq<Individual>, draws: seq<(nat, nat)>, poolSize: nat, n: nat)
    requires AllPermutations(pop, n) && MatingPool(pop, draws, poolSize, 0, []).Ok?
    ensures AllPermutations(MatingPool(pop, draws, poolSize, 0, []).value, n)
  {
    var pool := MatingPool(pop, draws, poolSize, 0, []).value;
    MatingPoolEntries(pop, draws, poolSize);
    forall m | 0 <= m < |pool| ensures IsPermutation(pool[m].square, n) {
      var j :| 0 <= j < |pop| && pop[j] == pool[m];
    }
  }

  /** Without duplicates allowed, a duplicate-free population yields a
      duplicate-free next population. */
  lemma GenerationKeepsNoDuplicates(cfg: Config, s: State, draws: GenerationDraws)
    requires !cfg.allowDuplicates
    requires NoDuplicateSquares(s.population)
    requires NextGeneration(cfg, s, draws).Ok?
    ensures NoDuplicateSquares(NextGeneration(cfg, s, draws).value.population)
  {
    var (survivors, _) := EliteDeath(cfg, s.population, s.stagnation).value;
    assert NoDuplicateSquares(survivors) by {
      if survivors != s.population {
        forall i, j | 0 <= i < j < |survivors| ensures survivors[i].square != survivors[j].square {
          assert survivors[i] == s.population[i + cfg.eliteSize];
          assert survivors[j] == s.population[j + cfg.eliteSize];
        }
      }
    }
    var pool := MatingPool(survivors, draws.pool, cfg.populationSize / 2, 0, []).value;
    ElitismKeepsNoDuplicates(cfg, survivors);
    var kept := Elitism(cfg, survivors).value;
    RefillOnlyAppends(cfg, kept, pool, draws.refill, 0);
  }

  // ---------------------------------------------------------------------
  // The search loop

  /** Sorting keeps every square a permutation. */
  lemma EvaluateKeepsPermutations(s: State, n: nat)
    requires AllPermutations(s.population, n)
    ensures AllPermutations(Evaluate(s).population, n)
  {
    var sorted := SortByFitness(s.population);
    SortByFitnessIsStableSort(s.population);
    forall k | 0 <= k < |sorted| ensures IsPermutation(sorted[k].square, n) {
      assert sorted[k] in multiset(s.population);
      var j :| 0 <= j < |s.population| && s.population[j] == sorted[k];
    }
  }

  /** If the search began with nothing found and ends, the found set is
      non-empty, the final population is sorted by fitness, and every found
      square is the square of a fitness-0 member of that final population. */
  lemma {:induction false} SearchEndsWithSolutions(cfg: Config, s: State, generations: seq<GenerationDraws>)
    requires s.found == {}
    requires Search(cfg, s, generations).Ok?
    ensures var r := Search(cfg, s, generations).value;
      r.found != {} && SortedByFitness(r.population) &&
      forall g :: g in r.found ==>
        exists k :: 0 <= k < |r.population| && r.population[k].fitness == 0 && r.population[k].square == g
    decreases |generations|
  {
    var e := Evaluate(s);
    var sorted := s.(population := SortByFitness(s.population));
    PublishRecordsSolutions(sorted);
    SortByFitnessIsStableSort(s.population);
    if e.found == {} {
      GenerationCounters(cfg, e, generations[0]);
      SearchEndsWithSolutions(cfg, NextGeneration(cfg, e, generations[0]).value, generations[1..]);
    }
  }

  /** One pass of the loop: if sorting and publishing find a square the loop
      stops there; otherwise exactly one generation is created, with the
      generation counter raised by one. */
  lemma SearchStep(cfg: Config, s: State, generations: seq<GenerationDraws>)
    requires Evaluate(s).found == {} && generations != []
    requires NextGeneration(cfg, Evaluate(s), generations[0]).Ok?
    ensures var n := NextGeneration(cfg, Evaluate(s), generations[0]).value;
      Search(cfg, s, generations) == Search(cfg, n, generations[1..]) &&
      n.generationCount == s.generationCount + 1
  {
    GenerationCounters(cfg, Evaluate(s), generations[0]);
  }

  /** A search that finds nothing and has no draws left fails for want of
      draws. */
  lemma SearchOutOfDraws(cfg: Config, s: State)
    requires Evaluate(s).found == {}
    ensures Search(cfg, s, []) == Err(DrawsExhausted)
  {
  }

  /** A search that finds nothing creates one generation and goes on from
      there. */
  lemma SearchUnfold(cfg: Config, s: State, generations: seq<GenerationDraws>)
    requires Evaluate(s).found == {} && generations != []
    ensures var step := NextGeneration(cfg, Evaluate(s), generations[0]);
      Search(cfg, s, generations) == if step.Ok? then Search(cfg, step.value, generations[1..]) else Err(step.error)
  {
  }

  /** A search that has recorded a solution stops at once and does not need
      any draws. */
  lemma SearchStopsWhenFound(cfg: Config, s: State, generations: seq<GenerationDraws>)
    requires Evaluate(s).found != {}
    ensures Search(cfg, s, generations) == Ok(Evaluate(s))
  {
  }
}
