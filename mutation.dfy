/** Crossover followed by the swap mutation of each child
    (MagicSquareFinder.crossoverAndMutate). All random choices are inputs. */
module Mutation {
  import opened Wrappers
  import opened Genome
  import opened Individuals

  /** The random choices for one child: whether Math.random() <= mutationProbability
      held, and the successive (nextInt, nextInt) pairs of the do-while loop,
      as raw draws that nextInt(n) turns into raw % n. */
  datatype MutationDraw = MutationDraw(fires: bool, positions: seq<(nat, nat)>)

  /** The random choices of one refill iteration: the two raw draws that pick
      parents from the mating pool, the crossover's seed, and one MutationDraw
      per child. */
  datatype RefillDraw = RefillDraw(first: nat, second: nat, seed: nat, mutations: seq<MutationDraw>)

  /** The pair the do-while loop settles on: the first pair of positions that
      differ once reduced modulo n. */
  function FirstDistinct(ps: seq<(nat, nat)>, n: nat): (r: Option<(nat, nat)>)
    requires n > 0
    ensures r.None? <==> forall k :: 0 <= k < |ps| ==> ps[k].0 % n == ps[k].1 % n
    ensures r.Some? ==> r.value.0 < n && r.value.1 < n && r.value.0 != r.value.1
    ensures r.Some? ==>
      exists k :: 0 <= k < |ps| && r.value == (ps[k].0 % n, ps[k].1 % n) &&
                  forall j :: 0 <= j < k ==> ps[j].0 % n == ps[j].1 % n
    decreases |ps|
  {
    if ps == [] then None
    else if ps[0].0 % n != ps[0].1 % n then Some((ps[0].0 % n, ps[0].1 % n))
    else FirstDistinct(ps[1..], n)
  }

  /** Mutation of one child with arraySize n: the child and its mutation
      points, or the exception the Java code would raise. */
  function Mutate(child: seq<int>, n: nat, d: MutationDraw): Result<(seq<int>, Option<(nat, nat)>)> {
    if !d.fires then Ok((child, None))
    else if n == 0 then Err(IllegalArgument)
    else match FirstDistinct(d.positions, n)
      case None => Err(DrawsExhausted)
      case Some((i, j)) =>
        if i < |child| && j < |child| then Ok((Swap(child, i, j), Some((i, j))))
        else Err(IndexOutOfBounds)
  }

  /** When mutation fires the child is its old value with two distinct
      positions exchanged and those positions, the first differing drawn pair,
      are recorded; otherwise the child
      is untouched and no points are recorded. Either way the values are kept. */
  lemma MutationSwapsTwoPositions(child: seq<int>, n: nat, d: MutationDraw)
    requires Mutate(child, n, d).Ok?
    ensures var (c, points) := Mutate(child, n, d).value;
      (points.Some? <==> d.fires) &&
      (d.fires ==> n > 0 && points == FirstDistinct(d.positions, n)) &&
      (points.None? ==> c == child) &&
      (points.Some? ==> points.value.0 != points.value.1 &&
                        points.value.0 < |child| && points.value.1 < |child| &&
                        c == Swap(child, points.value.0, points.value.1)) &&
      multiset(c) == multiset(child)
  {
    if d.fires {
      var (i, j) := FirstDistinct(d.positions, n).value;
      SwapKeepsPermutation(child, n, i, j);
    }
  }

  /** A permutation of 1..n is mutated without error exactly when mutation does
      not fire, or when n > 0 and some drawn pair differs modulo n. */
  lemma MutationFailsOnlyWithoutDistinctDraw(child: seq<int>, n: nat, d: MutationDraw)
    requires IsPermutation(child, n)
    ensures Mutate(child, n, d).Err? <==>
      d.fires && (n == 0 || forall k :: 0 <= k < |d.positions| ==> d.positions[k].0 % n == d.positions[k].1 % n)
  {
  }

  /** Mutates the children in order, child k with draw k. */
  function MutateAll(children: seq<seq<int>>, draws: seq<MutationDraw>, n: nat): Result<seq<(seq<int>, Option<(nat, nat)>)>>
    decreases |children|
  {
    if children == [] then Ok([])
    else if draws == [] then Err(DrawsExhausted)
    else match Mutate(children[0], n, draws[0])
      case Err(e) => Err(e)
      case Ok(m) =>
        match MutateAll(children[1..], draws[1..], n)
        case Err(e) => Err(e)
        case Ok(rest) => Ok([m] + rest)
  }

  /** The state of a loop that mutates the children one by one: mutated holds
      the results for the first i children, and what MutateAll does with the
      rest decides the whole outcome. */
  predicate MutatedUpTo(children: seq<seq<int>>, draws: seq<MutationDraw>, n: nat, i: nat,
                        mutated: seq<(seq<int>, Option<(nat, nat)>)>)
    requires i <= |children| && i <= |draws|
  {
    match MutateAll(children[i..], draws[i..], n)
    case Err(e) => MutateAll(children, draws, n) == Err(e)
    case Ok(rest) => MutateAll(children, draws, n) == Ok(mutated + rest)
  }

  lemma MutatedStart(children: seq<seq<int>>, draws: seq<MutationDraw>, n: nat)
    ensures MutatedUpTo(children, draws, n, 0, [])
  {
    assert children[0..] == children && draws[0..] == draws;
    if MutateAll(children, draws, n).Ok? {
      assert [] + MutateAll(children, draws, n).value == MutateAll(children, draws, n).value;
    }
  }

  lemma MutatedStep(children: seq<seq<int>>, draws: seq<MutationDraw>, n: nat, i: nat,
                    mutated: seq<(seq<int>, Option<(nat, nat)>)>)
    requires i < |children| && i < |draws| && MutatedUpTo(children, draws, n, i, mutated)
    ensures Mutate(children[i], n, draws[i]).Err? ==> MutateAll(children, draws, n) == Err(Mutate(children[i], n, draws[i]).error)
    ensures Mutate(children[i], n, draws[i]).Ok? ==> MutatedUpTo(children, draws, n, i + 1, mutated + [Mutate(children[i], n, draws[i]).value])
  {
    assert children[i..][0] == children[i] && draws[i..][0] == draws[i];
    assert children[i..][1..] == children[i + 1..] && draws[i..][1..] == draws[i + 1..];
    var later := MutateAll(children[i + 1..], draws[i + 1..], n);
    if Mutate(children[i], n, draws[i]).Ok? && later.Ok? {
      var m := Mutate(children[i], n, draws[i]).value;
      assert mutated + ([m] + later.value) == (mutated + [m]) + later.value;
    }
  }

  lemma MutatedEnd(children: seq<seq<int>>, draws: seq<MutationDraw>, n: nat,
                   mutated: seq<(seq<int>, Option<(nat, nat)>)>)
    requires |children| <= |draws| && MutatedUpTo(children, draws, n, |children|, mutated)
    ensures MutateAll(children, draws, n) == Ok(mutated)
  {
    assert children[|children|..] == [];
    assert mutated + [] == mutated;
  }

  lemma MutatedShort(children: seq<seq<int>>, draws: seq<MutationDraw>, n: nat, i: nat,
                     mutated: seq<(seq<int>, Option<(nat, nat)>)>)
    requires i == |draws| < |children| && MutatedUpTo(children, draws, n, i, mutated)
    ensures MutateAll(children, draws, n) == Err(DrawsExhausted)
  {
    assert draws[i..] == [];
  }

  /** Wraps mutated children into Individuals whose parents are p1 and p2. */
  function Wrap(cfg: Config, ms: seq<(seq<int>, Option<(nat, nat)>)>, p1: Individual, p2: Individual, details: string): seq<Individual> {
    seq(|ms|, k requires 0 <= k < |ms| =>
      Individual(ms[k].0, cfg.fitness(ms[k].0), Some((p1.square, p2.square)), ms[k].1, details, false))
  }

  /** The children that crossoverAndMutate returns for parents p1 and p2. */
  function Offspring(cfg: Config, p1: Individual, p2: Individual, d: RefillDraw): Result<seq<Individual>> {
    var result := cfg.Cross(p1.square, p2.square, d.seed);
    match MutateAll(result.children, d.mutations, cfg.ArraySize())
    case Err(e) => Err(e)
    case Ok(ms) => Ok(Wrap(cfg, ms, p1, p2, result.details))
  }

  /** A completed mutation loop has used one draw per child: entry k is child
      k mutated with draw k, and so keeps that child's values. */
  lemma {:induction false} MutateAllKeepsValues(children: seq<seq<int>>, draws: seq<MutationDraw>, n: nat)
    requires MutateAll(children, draws, n).Ok?
    ensures var ms := MutateAll(children, draws, n).value;
      |ms| == |children| && |children| <= |draws| &&
      (forall k :: 0 <= k < |ms| ==> Mutate(children[k], n, draws[k]) == Ok(ms[k])) &&
      forall k :: 0 <= k < |ms| ==> multiset(ms[k].0) == multiset(children[k])
  {
    if children != [] {
      MutationSwapsTwoPositions(children[0], n, draws[0]);
      MutateAllKeepsValues(children[1..], draws[1..], n);
    }
  }

  /** Child k is crossover child k mutated with mutation draw k, with its
      mutation points and the crossover's details. Children of two
      permutations are permutations (given the crossover assumption), are
      scored by the fitness calculator, are not elite and record both
      parents. */
  lemma OffspringArePermutations(cfg: Config, p1: Individual, p2: Individual, d: RefillDraw)
    requires CrossoverKeepsPermutations(cfg)
    requires IsPermutation(p1.square, cfg.ArraySize()) && IsPermutation(p2.square, cfg.ArraySize())
    requires Offspring(cfg, p1, p2, d).Ok?
    ensures var result := cfg.Cross(p1.square, p2.square, d.seed);
      var cs := Offspring(cfg, p1, p2, d).value;
      |cs| == |result.children| && |cs| <= |d.mutations| &&
      AllPermutations(cs, cfg.ArraySize()) &&
      forall k :: 0 <= k < |cs| ==>
        Mutate(result.children[k], cfg.ArraySize(), d.mutations[k]) == Ok((cs[k].square, cs[k].mutationPoints)) &&
        cs[k].details == result.details &&
        cs[k].fitness == cfg.fitness(cs[k].square) && !cs[k].belongsToElite &&
        cs[k].parents == Some((p1.square, p2.square))
  {
    var children := cfg.Cross(p1.square, p2.square, d.seed).children;
    MutateAllKeepsValues(children, d.mutations, cfg.ArraySize());
  }
}
