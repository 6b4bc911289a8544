# Genetic magic-square finder — Dafny model

This project models the core of a genetic search for magic squares. A
magic square is an N×N arrangement of 1..N² whose rows, columns and both
diagonals share one sum. The search keeps a population of candidate
squares (permutations of 1..N²), each scored by a fitness where 0 means
solved. Each generation:

- sorts the population by fitness and records every fitness-0 square
  in the found set;
- optionally kills the elite after a stagnation period;
- builds a mating pool by pairwise tournament;
- keeps an elite prefix of the population;
- refills the population with crossed and mutated children, optionally
  rejecting duplicates.

The search stops when the found set is non-empty. A second, separate
component is the formatter. It turns a comma-separated square into
tab-separated rows, one per line.

The model is deterministic. Every random choice is an input supplied by
the caller:

- each draw of `Utils.getRandom` and `Random.nextInt(n)` is a raw natural
  number, reduced as `raw % n`;
- each `Math.random() <= mutationProbability` test is a boolean;
- the crossover's internal randomness is a seed.

A finite supply of draws can run out. The model then reports
`DrawsExhausted`, where the Java code would simply draw again.

Modules, one per file:

- `Wrappers` (`wrappers.dfy`): `Option`, `Result` and the exceptions the
  code can raise: `IndexOutOfBounds`, `IllegalArgument`, and the model's
  `DrawsExhausted`.
- `Genome` (`genome.dfy`): genomes as `seq<int>`, permutations of 1..n
  and the swap.
- `Individuals` (`individual.dfy`): the `Individual` record and the
  finder's configuration. Fitness and crossover are function-valued
  fields of the configuration.
- `FitnessSort` (`fitness_sort.dfy`): the stable sort by fitness.
- `Mutation` (`mutation.dfy`): the swap mutation of each child, and
  `crossoverAndMutate` as a function.
- `Selection` (`selection.dfy`): the mating-pool tournament.
- `Generation` (`generation.dfy`): the finder's state as a value, one
  generation (`NextGeneration`) and the whole loop (`Search`) as
  functions, and lemmas about them.
- `Finder` (`finder.dfy`): `MagicSquareFinder` as a class. Its fields are
  updated in place by methods for the Java methods and for the parts of
  `createNewGeneration` (elite death, elitism, refill, the duplicate
  check). Each method is proved equal to the matching function of
  `Generation`, `Selection` or `Mutation`.
  Mutation works on an `array<int>` copy of each child.
- `SquareFormatter` (`square_formatter.dfy`): `format` as a method with
  its loop, the function it computes, and lemmas on the output's shape.

Where the written code and the design intent could differ, the model
follows the code:

- **Mating pool.** The tournament keeps the candidate with the higher
  fitness, which is the worse one. Ties go to the second draw
  (`i1.getFitness() > i2.getFitness() ? i1 : i2`).
- **Refill overshoot.** The refill adds the crossover's children in one
  batch, so the population can end up larger than `populationSize`.
- **Elitism.** `subList(eliteSize, populationSize).clear()` keeps the
  first `eliteSize` members and also every member beyond
  `populationSize`, and flags all of them elite.
- **Short population.** On a population shorter than `populationSize`,
  elitism's `IndexOutOfBoundsException` is caught and nothing changes.
- **Uncaught errors.**
  - If `eliteSize > populationSize`, on a population of at least
    `populationSize` members, the same `subList` call raises
    `IllegalArgumentException`, which is not caught.
  - If elite death is due and the population is shorter than
    `eliteSize`, elite death raises `IndexOutOfBoundsException`, which is
    not caught.
- **Formatter edge cases.**
  - `String.split(",")` drops trailing empty strings, and the empty
    string splits into `[""]`.
  - A short last row is padded by `Arrays.copyOfRange` with nulls, which
    `String.join` prints as `"null"`.
  - `trim` strips every character up to U+0020.

## Model

| member | source | states |
|---|---|---|
| Genome.Swap | src/com/guisehn/main/MagicSquareFinder.java:203-205 | the result keeps the length, holds the other position's old value at each of the two positions, and leaves every other position unchanged |
| Genome.SwapKeepsPermutation | src/com/guisehn/main/MagicSquareFinder.java:203-205 | swapping two positions keeps the multiset of values, so a permutation of 1..n stays one |
| Mutation.FirstDistinct | src/com/guisehn/main/MagicSquareFinder.java:197-201 | the do-while loop finds no pair exactly when every drawn pair is equal modulo arraySize; the pair it finds is the first drawn pair that differs modulo arraySize, reduced modulo arraySize, so two distinct indices below arraySize |
| Mutation.MutationSwapsTwoPositions | src/com/guisehn/main/MagicSquareFinder.java:194-210 | mutation points are recorded iff mutation fires, and they are FirstDistinct's pair of the draws; without them the child is untouched; with them the indices are distinct and in range, and the child is its old value with exactly those two positions swapped; the multiset is always kept |
| Mutation.MutationFailsOnlyWithoutDistinctDraw | src/com/guisehn/main/MagicSquareFinder.java:194-205 | on a permutation, mutation fails exactly when it fires and either arraySize is 0 (nextInt(0) throws) or no drawn pair differs |
| Mutation.MutateAllKeepsValues | src/com/guisehn/main/MagicSquareFinder.java:190-211 | a completed mutation loop has at least one draw per child and returns one entry per child; entry k is Mutate of child k with draw k, and keeps child k's multiset of values |
| Mutation.OffspringArePermutations | src/com/guisehn/main/MagicSquareFinder.java:183-223 | when the crossover keeps permutations, crossoverAndMutate returns one Individual per crossover child; child k's square and mutation points are Mutate's result for crossover child k with mutation draw k, its details are the crossover's, and it is a permutation, scored by the fitness calculator, not elite, with both parents recorded |
| Selection.MatingPoolEntries | src/com/guisehn/main/MagicSquareFinder.java:110-126 | a completed pool has exactly poolSize entries (createNewGeneration asks for populationSize / 2); each is a member of the population kept from a pair of different draws, with fitness at least that of the other, and the second draw on a tie |
| Selection.MatingPoolFrom | src/com/guisehn/main/MagicSquareFinder.java:114-123 | from any intermediate pool, the loop only appends, and its result has poolSize entries, each from some draw pair |
| Selection.MatingPoolFailure | src/com/guisehn/main/MagicSquareFinder.java:113-123 | the pool fails only if poolSize > 0; the error is IllegalArgument exactly when the population is empty (an assumption about Utils.getRandom, see Left out), and otherwise the draws ran out |
| FitnessSort.Insert | src/com/guisehn/main/MagicSquareFinder.java:53 | inserting one individual lengthens the sequence by one |
| FitnessSort.SortByFitness | src/com/guisehn/main/MagicSquareFinder.java:53 | the sort keeps the population's length |
| FitnessSort.InsertSorted | src/com/guisehn/main/MagicSquareFinder.java:53 | inserting into a fitness-sorted sequence keeps it sorted |
| FitnessSort.InsertMultiset | src/com/guisehn/main/MagicSquareFinder.java:53 | insertion adds exactly the inserted individual to the multiset |
| FitnessSort.InsertStable | src/com/guisehn/main/MagicSquareFinder.java:53 | insertion places the new individual after every earlier one of equal fitness |
| FitnessSort.SortIsSorted | src/com/guisehn/main/MagicSquareFinder.java:53 | the sorted population has non-decreasing fitness |
| FitnessSort.SortIsPermutation | src/com/guisehn/main/MagicSquareFinder.java:53 | the sorted population is a permutation of the old one |
| FitnessSort.SortIsStable | src/com/guisehn/main/MagicSquareFinder.java:53 | individuals of equal fitness keep their relative order |
| FitnessSort.SortByFitnessIsStableSort | src/com/guisehn/main/MagicSquareFinder.java:53 | the sort is sorted, a permutation and stable, all together |
| Generation.InitialPopulation | src/com/guisehn/main/MagicSquareFinder.java:78-90 | one non-elite, parentless Individual per generated square, scored by the fitness calculator; GenerateInitialPopulation is proved to build it; its squares are permutations because Run and GenerateInitialPopulation require the generated squares to be, and EvaluateKeepsPermutations then shows sorting and publishing keep them so |
| Generation.Publish | src/com/guisehn/main/MagicSquareFinder.java:96-108 | the found set gains the squares of the fitness-0 members and the counter restarts iff one is new; PublishRecordsSolutions states its meaning |
| Generation.Evaluate | src/com/guisehn/main/MagicSquareFinder.java:53-54 | the top of the loop: the stable sort of SortByFitnessIsStableSort, then Publish; EvaluateKeepsPermutations states what it keeps |
| Generation.EliteDeath | src/com/guisehn/main/MagicSquareFinder.java:132-137 | removes the first eliteSize members once the counter passes a non-zero period, else counts up, with IndexOutOfBounds on a short list; EliteDeathOnShortPopulationFails, EliteDeathDropsElite and GenerationCounters state its meaning |
| Selection.Pick | src/com/guisehn/main/MagicSquareFinder.java:115-122 | one tournament: nothing when the two draws name one individual, else the one of higher fitness, the second on a tie; MatingPoolEntries states its meaning |
| Selection.MatingPool | src/com/guisehn/main/MagicSquareFinder.java:113-123 | the pool loop with its error cases; MatingPoolEntries, MatingPoolFrom and MatingPoolFailure state its meaning |
| Generation.Elitism | src/com/guisehn/main/MagicSquareFinder.java:142-147 | the elite prefix and the members beyond populationSize, flagged elite, or the caught and uncaught subList errors; ElitismKeepsPrefix states its meaning |
| Generation.AddNew | src/com/guisehn/main/MagicSquareFinder.java:157-171 | the duplicate-rejecting loop over the children; AddNewAppendsOnlyNewSquares states its meaning |
| Generation.AddChildren | src/com/guisehn/main/MagicSquareFinder.java:154-171 | addAll when duplicates are allowed, else AddNew; AddChildrenOnlyAppends states its meaning |
| Generation.Refill | src/com/guisehn/main/MagicSquareFinder.java:149-173 | the refill loop; RefillOnlyAppends states its meaning |
| Generation.Breed | src/com/guisehn/main/MagicSquareFinder.java:139-173 | mating pool, elitism and refill in that order, stopping at the first error; GenerationKeepsPermutations and GenerationKeepsNoDuplicates state what it keeps |
| Generation.NextGeneration | src/com/guisehn/main/MagicSquareFinder.java:128-174 | one createNewGeneration; GenerationCounters, ElitesCarriedForward, EliteDeathDropsElite, GenerationKeepsPermutations and GenerationKeepsNoDuplicates state its meaning |
| Generation.Search | src/com/guisehn/main/MagicSquareFinder.java:52-62 | the run loop over a finite supply of generation draws; SearchEndsWithSolutions, SearchStopsWhenFound, SearchUnfold, SearchStep and SearchOutOfDraws state its meaning |
| Mutation.Mutate | src/com/guisehn/main/MagicSquareFinder.java:194-210 | the swap mutation of one child, or its exception; MutationSwapsTwoPositions and MutationFailsOnlyWithoutDistinctDraw state its meaning |
| Mutation.MutateAll | src/com/guisehn/main/MagicSquareFinder.java:190-211 | the mutation loop over the children, child k with draw k; MutateAllKeepsValues states its meaning |
| Mutation.Wrap | src/com/guisehn/main/MagicSquareFinder.java:214-220 | one Individual per mutated child, with its fitness, both parents, its mutation points and the crossover's details, not elite; OffspringArePermutations states its meaning |
| Mutation.Offspring | src/com/guisehn/main/MagicSquareFinder.java:183-223 | crossoverAndMutate's children; OffspringArePermutations states its meaning |
| SquareFormatter.JavaSplit | src/com/guisehn/ui/SquareFormatter.java:8 | String.split with trailing empty pieces dropped; JavaSplitPieces states that its pieces are all the pieces between separators up to the last non-empty one, with only empty pieces dropped; SplitAllJoin and JoinSplitAll relate those full pieces to the input, and NoTrailingEmpty shows JavaSplit equals SplitAll when no piece is empty |
| SquareFormatter.DropTrailingEmptyPrefix | src/com/guisehn/ui/SquareFormatter.java:8 | dropping trailing empty strings leaves a prefix of the pieces, and every piece dropped is empty |
| SquareFormatter.JavaSplitPieces | src/com/guisehn/ui/SquareFormatter.java:8 | split's result followed by empty pieces only is the full list of pieces between separators |
| SquareFormatter.Join | src/com/guisehn/ui/SquareFormatter.java:14 | String.join with a one-character separator; JoinSplitAll and SplitAllJoin state that it inverts splitting, and NoNewlineInJoin that tab-joining whitespace-free items gives a line without a newline |
| SquareFormatter.Terminated | src/com/guisehn/ui/SquareFormatter.java:14 | each line followed by the appended newline; TerminatedIsJoin states that this is the lines joined by newlines plus one final newline |
| SquareFormatter.CopyOfRange | src/com/guisehn/ui/SquareFormatter.java:13 | the next width items, padded with "null" past the end; FormatPadsShortRow shows the padding |
| SquareFormatter.RowStrings | src/com/guisehn/ui/SquareFormatter.java:12-15 | the tab-joined lines of the loop; ChunksShape and RowStep state their shape |
| SquareFormatter.Trim | src/com/guisehn/ui/SquareFormatter.java:17 | strips characters up to U+0020 at both ends; TrimNewline states that on text that neither starts nor ends with such a character it removes exactly the final newline |
| SquareFormatter.Formatted | src/com/guisehn/ui/SquareFormatter.java:7-18 | format's result; FormattedIsJoinedRows, FormatShape and FormatRoundTrip state its meaning |
| Generation.ZeroFitness | src/com/guisehn/main/MagicSquareFinder.java:97-99 | an individual is among the filtered ones iff it is in the population with fitness 0 |
| Generation.PublishRecordsSolutions | src/com/guisehn/main/MagicSquareFinder.java:96-108 | after publishing: the found set keeps every old square; every fitness-0 member's square is in the found set; every newly added square is a fitness-0 member's; the counter is 0 if the found set grew and unchanged otherwise; nothing else changes |
| Generation.AddNewUnfold | src/com/guisehn/main/MagicSquareFinder.java:157-171 | one child of the duplicate-rejecting loop is appended iff no member present at that moment has its square |
| Generation.AddNewAppendsOnlyNewSquares | src/com/guisehn/main/MagicSquareFinder.java:157-171 | the duplicate-rejecting loop only appends, appends only children, leaves every child's square present, and keeps a duplicate-free population duplicate-free |
| Generation.AddNewExtends | src/com/guisehn/main/MagicSquareFinder.java:157-171 | the population before the loop is a prefix of the population after it |
| Generation.AddNewFromChildren | src/com/guisehn/main/MagicSquareFinder.java:157-171 | every appended individual is one of the children |
| Generation.AddNewCovers | src/com/guisehn/main/MagicSquareFinder.java:157-171 | afterwards every child's square is present in the population |
| Generation.AddNewNoDuplicates | src/com/guisehn/main/MagicSquareFinder.java:157-171 | a population without two equal squares stays that way |
| Generation.AddOne | src/com/guisehn/main/MagicSquareFinder.java:158-170 | one child's step makes its square present, loses no square and adds no duplicate |
| Generation.AddChildrenOnlyAppends | src/com/guisehn/main/MagicSquareFinder.java:154-171 | adding a batch of children only appends, and adds only children; with duplicates allowed all children are appended in order; without, a duplicate-free population stays duplicate-free |
| Generation.AddChildrenKeepsPermutations | src/com/guisehn/main/MagicSquareFinder.java:154-171 | adding permutation children to a permutation population keeps every square a permutation |
| Generation.RefillOnlyAppends | src/com/guisehn/main/MagicSquareFinder.java:149-173 | a completed refill has at least populationSize members, starts with the population it was given, keeps duplicate-freedom when duplicates are rejected, and keeps every square a permutation |
| Generation.ElitismKeepsPrefix | src/com/guisehn/main/MagicSquareFinder.java:142-147 | a population shorter than populationSize is unchanged; eliteSize > populationSize raises IllegalArgument; otherwise the result is the first eliteSize members followed by those beyond populationSize, all flagged elite and otherwise unchanged |
| Generation.MarkElite | src/com/guisehn/main/MagicSquareFinder.java:144 | every member flagged elite; MarkEliteKeepsSquares and ElitismKeepsPrefix state that only the flag changes |
| Generation.MarkEliteKeepsSquares | src/com/guisehn/main/MagicSquareFinder.java:144 | flagging the population elite keeps its length and every square |
| Generation.ElitismKeepsNoDuplicates | src/com/guisehn/main/MagicSquareFinder.java:142-147 | elitism keeps a duplicate-free population duplicate-free |
| Generation.GenerationCounters | src/com/guisehn/main/MagicSquareFinder.java:128-173 | a completed generation raises generationCount by exactly one and leaves the found set unchanged; the counter becomes 0 when elite death is due and grows by one otherwise; the population ends with at least populationSize members |
| Generation.EliteDeathOnShortPopulationFails | src/com/guisehn/main/MagicSquareFinder.java:132-133 | elite death on a population shorter than eliteSize raises IndexOutOfBounds |
| Generation.ElitesCarriedForward | src/com/guisehn/main/MagicSquareFinder.java:131-149 | without elite death, on a full population, the next population begins with the first eliteSize members, changed only by the elite flag |
| Generation.EliteDeathDropsElite | src/com/guisehn/main/MagicSquareFinder.java:131-149 | with elite death and a survivor list shorter than populationSize, the next population begins with the survivors exactly: the first eliteSize individuals are gone and nobody is newly flagged |
| Generation.EliteDeathKeepsPermutations | src/com/guisehn/main/MagicSquareFinder.java:132-137 | the survivors of elite death are permutations when the population was |
| Generation.MatingPoolKeepsPermutations | src/com/guisehn/main/MagicSquareFinder.java:110-126 | the pool's squares are permutations when the population's are |
| Generation.GenerationKeepsPermutations | src/com/guisehn/main/MagicSquareFinder.java:128-173 | every square of the next population is a permutation of 1..size² when every square of the current one was and the crossover keeps permutations |
| Generation.GenerationKeepsNoDuplicates | src/com/guisehn/main/MagicSquareFinder.java:128-173 | with duplicates rejected, a duplicate-free population yields a duplicate-free next population |
| Generation.EvaluateKeepsPermutations | src/com/guisehn/main/MagicSquareFinder.java:53-54 | sorting and publishing keep every square a permutation |
| Generation.SearchEndsWithSolutions | src/com/guisehn/main/MagicSquareFinder.java:48-62 | when the loop ends (starting from an empty found set), the found set is non-empty, the population is sorted by fitness, and every found square is the square of one of its fitness-0 members |
| Generation.SearchStopsWhenFound | src/com/guisehn/main/MagicSquareFinder.java:53-59 | once sorting and publishing find a square, the loop stops there without creating a generation |
| Generation.SearchUnfold | src/com/guisehn/main/MagicSquareFinder.java:52-62 | while the found set stays empty, the loop creates exactly one generation and repeats from it |
| Generation.SearchStep | src/com/guisehn/main/MagicSquareFinder.java:52-62 | a pass that finds nothing continues from the new generation, whose generationCount is one higher |
| Generation.SearchOutOfDraws | src/com/guisehn/main/MagicSquareFinder.java:52-62 | a pass that finds nothing with no draws left ends in DrawsExhausted |
| Finder.PublishOne | src/com/guisehn/main/MagicSquareFinder.java:101-107 | one pass of the publishing loop adds the square and resets the counter iff the square was new, keeping the loop invariant |
| Finder.PublishedAll | src/com/guisehn/main/MagicSquareFinder.java:96-108 | once every fitness-0 member has been seen, the fields equal Publish's result |
| Finder.MagicSquareFinder.constructor | src/com/guisehn/main/MagicSquareFinder.java:28-46 | stores the configuration with arraySize = size², an empty found set and population, and counters at 0 |
| Finder.MagicSquareFinder.Run | src/com/guisehn/main/MagicSquareFinder.java:48-62 | resets both counters to 0, builds the initial population from the given squares, and then runs the loop; it succeeds exactly when Search does, leaving Search's state, with a non-empty found set and every square still a permutation; otherwise it reports Search's error |
| Finder.MagicSquareFinder.SortAndPublish | src/com/guisehn/main/MagicSquareFinder.java:53-54 | the new state is Evaluate of the old one (sort, then publish), and every square stays a permutation |
| Finder.MagicSquareFinder.GenerateInitialPopulation | src/com/guisehn/main/MagicSquareFinder.java:78-90 | the population becomes one fresh, non-elite, parentless Individual per generated square, scored by the fitness calculator |
| Finder.MagicSquareFinder.AddAndPublishMagicSquares | src/com/guisehn/main/MagicSquareFinder.java:96-108 | the found set and counter become those of Publish, whose meaning PublishRecordsSolutions states |
| Finder.MagicSquareFinder.CreateMatingPool | src/com/guisehn/main/MagicSquareFinder.java:110-126 | the loop's result is MatingPool over the current population, whose meaning MatingPoolEntries and MatingPoolFailure state |
| Finder.MagicSquareFinder.CreateNewGeneration | src/com/guisehn/main/MagicSquareFinder.java:128-174 | the fields become NextGeneration of the old state, or the method reports the exception NextGeneration names; every square stays a permutation |
| Finder.MagicSquareFinder.KillElite | src/com/guisehn/main/MagicSquareFinder.java:131-137 | the population and counter become EliteDeath's result, or IndexOutOfBounds is reported |
| Finder.MagicSquareFinder.BreedPopulation | src/com/guisehn/main/MagicSquareFinder.java:139-173 | mating pool, elitism and refill together give Breed's result or its error |
| Finder.MagicSquareFinder.ApplyElitism | src/com/guisehn/main/MagicSquareFinder.java:141-147 | the population becomes Elitism's result (unchanged when the exception is caught), or IllegalArgument is reported |
| Finder.MagicSquareFinder.MarkAllElite | src/com/guisehn/main/MagicSquareFinder.java:144 | every member is flagged elite in place and nothing else changes |
| Finder.MagicSquareFinder.RefillPopulation | src/com/guisehn/main/MagicSquareFinder.java:149-173 | the refill loop's outcome is Refill's result or its error |
| Finder.MagicSquareFinder.AddIfNew | src/com/guisehn/main/MagicSquareFinder.java:157-171 | the population becomes AddNew's result, whose meaning AddNewAppendsOnlyNewSquares states |
| Finder.MagicSquareFinder.IsPresent | src/com/guisehn/main/MagicSquareFinder.java:158-166 | the inner loop reports a duplicate iff some member of the population has the child's square |
| Finder.MagicSquareFinder.CrossoverAndMutate | src/com/guisehn/main/MagicSquareFinder.java:183-223 | the children returned are Offspring's, whose meaning OffspringArePermutations states |
| Finder.MagicSquareFinder.MutateChildren | src/com/guisehn/main/MagicSquareFinder.java:190-211 | the loop's result is MutateAll over the children and their draws |
| Finder.MagicSquareFinder.MutateChild | src/com/guisehn/main/MagicSquareFinder.java:194-210 | the array is swapped in place exactly as Mutate says and the points are returned; on an error the array is untouched |
| SquareFormatter.ISqrt | src/com/guisehn/ui/SquareFormatter.java:9 | the row width r is the floor of the square root of the item count: r² <= n < (r+1)² |
| SquareFormatter.ISqrtOfSquare | src/com/guisehn/ui/SquareFormatter.java:9 | for N*N items the row width is exactly N |
| SquareFormatter.SplitAll | src/com/guisehn/ui/SquareFormatter.java:8 | splitting yields at least one piece and no piece holds the separator |
| SquareFormatter.JoinSplitAll | src/com/guisehn/ui/SquareFormatter.java:8 | joining the pieces with the separator gives the string back |
| SquareFormatter.SplitAllJoin | src/com/guisehn/ui/SquareFormatter.java:8 | splitting a join of separator-free pieces gives the pieces back |
| SquareFormatter.Format | src/com/guisehn/ui/SquareFormatter.java:7-18 | the loop stepping i by the row width, appending one tab-joined, newline-ended line per step, and the final trim compute Formatted |
| SquareFormatter.LoopStep | src/com/guisehn/ui/SquareFormatter.java:12-15 | one step of the loop keeps the invariant that the text built so far, followed by the rows still to come, is the whole text |
| SquareFormatter.RowStep | src/com/guisehn/ui/SquareFormatter.java:12-14 | the rows from item i on are the row copied from i followed by the rows from i + width on |
| SquareFormatter.ChunksShape | src/com/guisehn/ui/SquareFormatter.java:12-13 | m*w items give m rows of w items, which read in order give the items back, and the loop's lines are those rows tab-joined |
| SquareFormatter.FormattedIsJoinedRows | src/com/guisehn/ui/SquareFormatter.java:8-17 | for N*N clean items the output is the N rows, each tab-joined, joined by newlines, with no trailing newline; the rows read in order give the items |
| SquareFormatter.GridLines | src/com/guisehn/ui/SquareFormatter.java:12-15 | splitting the joined N×N grid at newlines and then at tabs gives back each row |
| SquareFormatter.FormatShape | src/com/guisehn/ui/SquareFormatter.java:12-17 | for N*N clean items the output has exactly N non-empty lines separated by single newlines, each with N tab-separated items, and the lines read in order give back the item list |
| SquareFormatter.GridCommas | src/com/guisehn/ui/SquareFormatter.java:12-17 | turning tabs and newlines of the joined grid into commas gives the items joined by commas |
| SquareFormatter.FormatRoundTrip | src/com/guisehn/ui/SquareFormatter.java:8-17 | for a perfect-square count of non-empty, whitespace-free items, replacing every tab and newline of the output by a comma gives the input back |
| SquareFormatter.FormatSmallCases | src/com/guisehn/ui/SquareFormatter.java:8-17 | "x" formats to "x" and "" formats to "" |
| SquareFormatter.FormatPadsShortRow | src/com/guisehn/ui/SquareFormatter.java:8-17 | five items give rows of two, and the short last row is padded with "null": "1,2,3,4,5" formats to "1\t2\n3\t4\n5\tnull" |

## Left out

- Printing the found squares (`MagicSquareFinder.java:64-75`) and the
  stack trace printed when elitism's exception is caught are console
  output. The model has no I/O.
- `Main.java` only supplies constants and calls `run`. It is not part of
  this model.
- `Crossover2`, `CrossoverResult`, `MagicSquareFitnessCalculator`,
  `RandomMagicSquareGenerator`, `Utils` and `Individual` are not part of
  this model. They are stood in for as follows:
  - crossover and fitness are function-valued fields of the
    configuration;
  - that crossover keeps permutations is an assumption the constructor
    requires, not something proved;
  - the generator's squares are an input of `Run`, assumed to be
    permutations;
  - `Utils.getRandom(list)` is `list[raw % |list|]`, and on an empty
    list it is assumed to raise `IllegalArgumentException` as
    `Random.nextInt(0)` does. That error of `MatingPool` and `Refill` is
    this assumption, not something the shown code does;
  - each `Individual` is a value, compared (for the found set and the
    duplicate check) by its square.
- Object identity. `createMatingPool` compares two picked references
  with `==`. The model compares the two drawn indices instead. Every list
  entry is a distinct object, so the two tests agree.
  - `setBelongsToElite` also reaches mating-pool entries through
    aliasing. The pool is used only for its squares afterwards, so this
    is not modelled.
- Floating point. `Math.random() <= mutationProbability` is a boolean
  input per child. `Math.pow(size, 2)` is `size*size`. `Math.sqrt` is
  the integer square root.
- Integer width. Sizes are `nat`. The counters are unbounded `int`, so
  the 32-bit overflow of `generationCount` and of
  `amountOfGenerationsSinceLastNewMagicSquare` is not modelled. The
  second counter grows without bound when `eliteDeathPeriod` is 0.
- Unbounded loops. The `run` loop, the mating-pool and refill loops and
  the mutation do-while consume finite lists of draws. Running out is
  the model's `DrawsExhausted`, which has no counterpart in the Java
  code.
- Finder.MagicSquareFinder.CreateNewGeneration: when an exception
  escapes, the contract names the exception but not the partly-updated
  fields.
- Finder.MagicSquareFinder.Run: when an exception escapes or the draws
  run out, the contract names the outcome but not the fields.
- Concurrency. The code is single-threaded, and so is the model.
