# Genetic TSP solver: a verified model of its evolutionary engine

The project models the evolutionary engine of `GeneticTSP.py`, a genetic-algorithm solver
for the travelling salesman problem. A candidate solution (an *individual*) is a genome that
visits every city once, plus its tour cost, which is computed when the individual is built.
The population is sorted by cost once per generation. Its cheapest part survives, a tail
may be shuffled for diversity, and the remaining slots get children. A mutation child is an
inversion of one segment of its parent. A crossover child comes from edge-recombination of
two parents. After the last generation the cheapest individual is returned.

Every random choice the program makes is an explicit input of the model:
- the Fisher–Yates draws of `random.shuffle` (`FitsShuffle`: the draw for position `i` is at most `i`);
- the two `random.choice` cut draws of the mutation (`FitsCuts`);
- the parent indices below `survivors` (`ClonesFit`, `CrossesFit`).

The crossover's tie-breaks and `set.pop` are unrestricted choices (`:|`). Its contracts
therefore hold for every choice the set-iteration order could make.

Modules, following the program's structure:
- **tours.dfy** (`Tours`): the cost matrix, cycle cost, `evaluate`, and counting lemmas about permutations.
- **shuffling.dfy** (`Shuffling`): `random.shuffle` as CPython performs it, with explicit draws.
- **individuals.dfy** (`Individuals`): `Individual.__init__` and `create`.
- **mutation.dfy** (`Mutation`): `__reproduce_clone`. It is pure slicing, so it is a function.
- **crossover.dfy** (`Crossover`): `__reproduce_sexual`, as methods with loops: the set construction, the discard loop, the scan over the current set, and the greedy walk.
- **reproduction.dfy** (`Reproduction`): the `reproduce` dispatch.
- **ordering.dfy** (`Ordering`): `population.sort(key=cost)` as a function, and `findbest` as a loop.
- **population.dfy** (`Populations`): the slot counts, the class `Population` whose `members` list is reassigned in place, `make_population`, `generation` and `run`.

Costs are `real`. `int(count * ratio)` is the `Floor` of the real product, since the
operand is never negative.

The crossover stores *positions* in its neighbour sets (`gene.index(...)`) and later reads
them as city labels. The model keeps that literally. `Crossover.NeighbourSetMembers` states
exactly which positions a set holds.

Two consequences of the code that its comments do not spell out:
- In non-elite mode the shuffled range starts at `elites + 1 >= 1`, so slot 0 never moves. Slot 0 always survives whenever the parent draws exist, because they require `survivors >= 1`. So the best cost never increases, in either mode (`Populations.Population.Generation`, `Populations.Population.PassGenerations`, `Populations.Run`).
- The code does not validate `survivalRatio` or `reproductionTypeRatio`. The model admits the closed interval [0, 1] for both (`ValidConfig`). A survival ratio of 0 leaves no individual to draw parents from, so `DrawsFit` has no draws for it whenever children are needed.

## Model

| member | source | states |
|---|---|---|
| Tours.Evaluate | GeneticTSP.py:221-226 | the loop returns the sum of `M[g[i]][g[i+1]]` for `i < N-1` plus the return edge `M[g[N-1]][g[0]]`, read in traversal direction with no symmetry assumed, and this equals the closed-cycle cost `TourCost` |
| Tours.TourCostIsPathPlusReturn | GeneticTSP.py:223-225 | the cycle cost over all `N` edges equals the open path cost plus the edge back to the first city |
| Tours.RotationKeepsCost | GeneticTSP.py:221-226 | starting the same cycle one city later gives the same cost, even for an asymmetric matrix |
| Tours.UnusedCard | GeneticTSP.py:209 | a duplicate-free, in-range prefix leaves exactly `N - len` unused cities in `set(range(N)) - set(child_gene)` |
| Tours.PermutationCovers | GeneticTSP.py:182-189 | a permutation of `0..N-1` contains every city, so every `gene.index(...)` call is defined |
| Shuffling.Shuffled | GeneticTSP.py:218 | the shuffled list has the same length and the same multiset of elements |
| Shuffling.ShuffledKeepsDistinct | GeneticTSP.py:218 | shuffling a duplicate-free list gives a duplicate-free list |
| Individuals.NewIndividual | GeneticTSP.py:138-145 | construction fails exactly when the genome length is not `N`; otherwise the genome is kept as given and the cost is its tour cost |
| Individuals.Create | GeneticTSP.py:216-219 | `create` returns `N` city labels below `N` |
| Individuals.CreateIsPermutation | GeneticTSP.py:216-219 | for every admissible shuffle, `create` returns a permutation of `0..N-1` with the multiset of `range(N)` |
| Individuals.RandomIndividual | GeneticTSP.py:138-140 | `Individual()` holds the created genome with its tour cost, and is well-formed |
| Mutation.CutPoints | GeneticTSP.py:159-160 | the cuts satisfy `0 <= cut1 <= N-3` and `cut1 + 2 <= cut2 <= N-1`, and are the two draws shifted as the code does |
| Mutation.Reversed | GeneticTSP.py:161-162 | `list.reverse` puts `s[len-1-k]` at position `k` and keeps the multiset |
| Mutation.Mutate | GeneticTSP.py:161-168 | the new genome has length `N`, and position `k` holds the parent's entry at `Origin(c, k)`, which is in range |
| Mutation.MutateAt | GeneticTSP.py:163-168 | `new[k] == old[k]` for `k < cut1` and for `k > cut2`, and `new[k] == old[cut1+cut2-k]` inside the segment |
| Mutation.MutateAsSlices | GeneticTSP.py:161-168 | the mutated genome is prefix ++ reversed segment ++ suffix, the `cut1 > 0` and `cut2 < N-1` guards included |
| Mutation.MutateKeepsDistinct | GeneticTSP.py:161-168 | the inversion keeps a duplicate-free genome duplicate-free |
| Mutation.MutateKeepsPermutation | GeneticTSP.py:158-170 | the new genome is a rearrangement (same multiset) of the parent's genome, so a permutation stays a permutation |
| Mutation.MutateIsInvolution | GeneticTSP.py:161-168 | inverting the same segment twice restores the genome |
| Mutation.ReproduceClone | GeneticTSP.py:158-170 | the clone's genome is the inversion at the drawn cuts, and the clone is well-formed |
| Crossover.IndexOf | GeneticTSP.py:182-189 | `list.index` returns the first position holding the label |
| Crossover.NeighbourSetMembers | GeneticTSP.py:179-189 | a position `y` is in the set of city `i` exactly when parent A holds `N-1` there for `i == 0`, holds `0` there for `i == N-1`, and otherwise A or B holds `i-1` or `i+1` there |
| Crossover.NeighbourSetsInRange | GeneticTSP.py:178-189 | every neighbour set holds labels below `N` only |
| Crossover.AddNeighbours | GeneticTSP.py:181-189 | the `add` calls for city `i` add exactly its neighbour set |
| Crossover.BuildNeighbourSets | GeneticTSP.py:178-189 | the construction loop yields one set per city, each the neighbour set of that city |
| Crossover.DiscardEverywhere | GeneticTSP.py:198-199 | afterwards every set equals itself minus the current city |
| Crossover.PickFewest | GeneticTSP.py:202-206 | with `min = N` and a strict `<`, the scan settles on a member of the current set whose set is no larger than any other member's |
| Crossover.RemainingIsSmall | GeneticTSP.py:197-206 | once a city is used, every remaining set has fewer than `N` members, so the scan always moves |
| Crossover.RuleGivesFreshCity | GeneticTSP.py:201-211 | a city chosen by the edge rule is a label below `N` not used yet |
| Crossover.DiscardKeepsRemaining | GeneticTSP.py:197-199 | after the discard, every set is still its initial contents minus the cities used so far, so no set holds a used city |
| Crossover.ChooseNext | GeneticTSP.py:201-211 | while cities remain, the next city is unused and follows the edge rule: a member with the fewest remaining neighbours when the current set is non-empty, otherwise any unused city |
| Crossover.ErxStep | GeneticTSP.py:197-211 | one loop pass appends the current city, keeps the sets equal to their initial contents minus the used cities, and extends the edge-rule walk |
| Crossover.Walk | GeneticTSP.py:192-211 | the loop ends with a child of length `N` that starts with `A.gene[0]` and whose every city follows the edge rule from the ones before it |
| Crossover.WalkIsDistinct | GeneticTSP.py:195-211 | a walk that follows the edge rule never repeats a city and never leaves `0..N-1` |
| Crossover.ErxChildIsPermutation | GeneticTSP.py:173-214 | every crossover child is a permutation of `0..N-1` |
| Crossover.ReproduceSexual | GeneticTSP.py:173-214 | the child is an edge-rule walk of length `N` from `A.gene[0]`, and is well-formed |
| Reproduction.Reproduce | GeneticTSP.py:150-155 | without a partner the child is the inversion clone; with one it is a crossover child of the pair; either way it is well-formed |
| Ordering.Insert | GeneticTSP.py:95 | inserting into an ordered list keeps it ordered and adds exactly one element to the multiset |
| Ordering.SortByCost | GeneticTSP.py:95 | the sorted population is ordered by cost and is a rearrangement of the input |
| Ordering.MinCost | GeneticTSP.py:122-127 | the minimum is the cost of some individual and at most every individual's cost |
| Ordering.MinCostOfRearrangement | GeneticTSP.py:95 | rearranging a population does not change its lowest cost |
| Ordering.SortedHeadIsCheapest | GeneticTSP.py:95 | after the sort, slot 0 holds a cheapest individual |
| Ordering.FindBest | GeneticTSP.py:122-127 | the scan returns an individual of minimal cost, and it is at the first position holding that cost |
| Populations.Portion | GeneticTSP.py:99 | `int(count * ratio)` for a ratio in [0, 1] is the product rounded down, and at most `count` |
| Populations.PortionMonotone | GeneticTSP.py:99-109 | a smaller ratio never yields a larger portion; this is why `elites <= survivors` |
| Populations.SlotCounts | GeneticTSP.py:99-112 | `survivors + nr_of_children == len`, the cloned count is at most the child count (crossover children fill the rest), `elites <= survivors`, and the shuffled tail starts at `elites + 1` or is empty |
| Populations.DrawsMeanSurvivors | GeneticTSP.py:114-118 | whenever a generation has parent draws for a non-empty population, at least one individual survives |
| Populations.AfterShuffle | GeneticTSP.py:108-112 | the re-shuffled tail is a permutation of the sorted tail; slots `[0, elites+1)` keep the sorted individuals; in elite mode nothing moves |
| Populations.ReplaceTail | GeneticTSP.py:110-112 | the slice assignment `population[elites+1:] = rest` of a rearranged tail rearranges the whole list and leaves the head alone |
| Populations.BestSurvives | GeneticTSP.py:122-127 | if slot 0 keeps the cheapest sorted individual, the lowest cost does not increase |
| Populations.PlaceClones | GeneticTSP.py:114-115 | slot `survivors + i` gets the mutation child of the drawn parent; the survivors and the later slots are untouched; all individuals stay well-formed |
| Populations.PlaceCrossovers | GeneticTSP.py:117-118 | the slots after the clones get crossover children of the drawn pairs; the slots before them are untouched |
| Populations.CrossParentsStay | GeneticTSP.py:114-118 | the crossover parents, read after the clone loop, are the survivors from before it, which that loop does not change |
| Populations.AssembleGeneration | GeneticTSP.py:114-118 | the two fill loops together turn the shuffled population into the next generation |
| Populations.KeptPrefix | GeneticTSP.py:108-118 | survivors kept in place keep their sorted individuals: all of them in elite mode, the first `elites + 1` otherwise, slot 0 in both |
| Populations.Population.constructor | GeneticTSP.py:85-89 | `make_population` holds one created individual per draw, in order, all well-formed |
| Populations.Population.SortAndShuffle | GeneticTSP.py:95-112 | the new list is the sorted list with the tail re-shuffled in non-elite mode |
| Populations.Population.Refill | GeneticTSP.py:114-118 | the members become the next generation of the shuffled members |
| Populations.Population.Generation | GeneticTSP.py:92-119 | the length is preserved; survivors are the sorted (and possibly shuffled) head; the cloned slots and crossover slots hold children of survivors; in elite mode all survivors keep their sorted places, otherwise the first `elites + 1` do; slot 0 keeps the cheapest; the lowest cost does not increase |
| Populations.Population.PassGenerations | GeneticTSP.py:237-238 | the loop of `run`: one generation per draw record, in order; the recorded history starts at the old members, ends at the new ones, and each step is a `GenerationStep`; the length is kept and the lowest cost does not increase |
| Populations.HistoryExtends | GeneticTSP.py:237-238 | recording the population after one more generation keeps every earlier step of the history |
| Populations.Run | GeneticTSP.py:230-242 | fails exactly when the population size is below 2; otherwise the history has `nrOfGenerations - 1` steps from the created population, and the result is `findbest` of the last population: the first individual of its lowest cost; it is well-formed and no costlier than any individual of the first population |

## Left out

- Reading the `.tsp` file, the regular-expression parsing and building the matrix with `math.sqrt` (GeneticTSP.py:52-79). These are file input and floating-point numerics; the matrix is a parameter.
- The module-level settings (GeneticTSP.py:11-42). They are parameters: the matrix, `Config`, the population size and the generation count.
- All `print` reporting, the `printValues` switch and the `exit()` in `run`. The refusal of a population below two is a `Failure` result.
- The `random` module. Every draw is an input constrained to the values the module can return; the model covers every such choice, with no distribution.
- Floating-point rounding in costs and in `int(len * ratio)`. Real arithmetic is exact here, so the model can differ from the program where the floats would round.
- Mutation for `N < 3`: `random.choice` on an empty range raises `IndexError`. No cut draw fits then (`FitsCuts`), so no generation with cloned children exists in the model.
- A generation with children but `survivors == 0`: `random.choice(range(0))` raises `IndexError`. No parent draws fit that case (`DrawsFit`).
- Individuals.NewIndividual: requires the labels of a correct-length genome to be in `0 .. N-1`. Python wraps a label in `-N .. -1` to the end of the row and raises `IndexError` for any other label outside the range. The code only passes permutations.
- An empty matrix (`nrOfCities == 0`): every entry point requires at least one city (`IsMatrix`). With `populationSize >= 2` the program raises `IndexError` in `evaluate` on `self.gene[nrOfCities-1]` of an empty genome (GeneticTSP.py:225); with `populationSize < 2` it prints and exits before touching the matrix (GeneticTSP.py:231-233), a case `Run` does not cover for an empty matrix.
- Individuals.Create: the permutation property is proved in `CreateIsPermutation`, not stated in its own ensures.
- Populations.SlotCounts: the floor relations of each count are stated by `Portion`, not repeated here.
- Ordering.SortByCost: modelled as a stable insertion sort. The model proves ordered and rearranged, but not stability, the property that fixes Python's tie order.
- Crossover.PickFewest: CPython's set iteration order is not modelled. Any member of minimal size may be chosen, which covers the one CPython picks.
- The `findbest` call whose result is only printed (GeneticTSP.py:235 and 240).
