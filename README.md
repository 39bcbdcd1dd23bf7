# A verified model of genetic_algo

genetic_algo is a small C++ library for genetic algorithms. Its engine, the
class template `simple_ga<T>` (include/ga.h), works on a population of
individuals of type `T`:

- it scores every individual with a problem-specific fitness function;
- it keeps the generation's minimum, maximum, sum and average fitness;
- it builds a cumulative table for roulette-wheel selection;
- it picks two distinct parents for crossover, with a "similar fit"
  substitute when the wheel lands on the parent already chosen;
- it mutates with a given probability;
- with elitism on, it writes the previous generation's best individual into a
  random slot of the new generation;
- it tracks the best individual of the whole run, and stops when `shouldStop`
  holds.

Two example problems plug into the engine:

- the n-queens solver (src/examples/n_queen) uses permutations of rows, a
  conflict-count fitness, a one-point order crossover and a swap mutation;
- the function minimiser (src/examples/math_functions) uses points (x, y),
  the negated function as fitness, a weighted-average crossover and a
  clamped one-coordinate mutation.

The generic one-point and two-point vector crossovers live in
include/util/crossovers.h.

The Dafny model makes the following choices:

- Every random draw is a parameter: the crossover, mutation and swap coins,
  the roulette draws, the crossover points, the elite slot, the rand() values
  and the crossover weight.
- The population is a sequence of slots. The pointer-keyed fitness map becomes
  a ledger (one fitness per slot) and the cumulative map becomes a table in
  slot order. A null pointer is `None`.
- Fitness is `real`, so every property holds in exact arithmetic.
- The engine's invariant (`SimpleGa.Valid`) states the average as
  `average * N == sum` and the wheel through `IsTableOf`, its statement
  without division. `TableOfIsCumulativeTable` proves that statement holds of
  the cumulative table and of nothing else.
- The engine is a class whose methods update its fields, as `simple_ga<T>`
  does. The n-queens operators and the crossovers are methods over arrays and
  sequences, proved against specification functions. Box clamping and the
  minimiser's crossover are functions over a record.

Files:

| file | module | models |
|---|---|---|
| wrappers.dfy | Wrappers | `Option` for pointers that may be null |
| fitness_ledger.dfy | FitnessLedger | sums, extrema, the shares and the cumulative table of `resetCumulativeMap` |
| selector.dfy | Selector | `selectSimilarFit`, `rouletteWheelSelection`, `selectCrossOverParents` |
| elitism.dfy | Elitism | the elite replacement's re-scan, as written and corrected |
| ga_engine.dfy | GaEngine | `simple_ga<T>`: parameters, scoring, `copyNextGeneration`, `run` |
| crossovers.dfy | Crossovers | `onePointCrossover`, `twoPointCrossover` |
| nqueen.dfy | NQueen | n-queens fitness, conflict list, mutation, random individual, constructor |
| order_crossover.dfy | OrderCrossover | n-queens one-point order crossover |
| function_minimizer.dfy | FunctionMinimizer | fitness, crossover, clamping, mutation, `init_min_max` |

`run` re-initialises the population, the generation counter and the run-best
on every call (include/ga.h:296, include/ga.h:312, include/ga.h:409-410). A
second `run` therefore starts over instead of continuing, and the model
follows this code.

## Model

| member | source | states |
|---|---|---|
| FitnessLedger.MaxOf | include/ga.h:464-480 | the value a full re-scan with `>=` finds is in the ledger and no entry exceeds it |
| FitnessLedger.MinOf | include/ga.h:486-500 | the value a full re-scan with `<=` finds is in the ledger and no entry lies below it |
| FitnessLedger.CumulativeTable | include/ga.h:535-585 | the table has one entry per slot; its shape is stated by EqualShareTable and GeneralTable |
| FitnessLedger.Shares | include/ga.h:535-585 | one share per slot, equal shares when min == max and shifted shares otherwise |
| FitnessLedger.SumUpdate | include/ga.h:459 | overwriting one slot changes the sum by the new value minus the old one, which is how elitism adjusts `fitness_sum` |
| FitnessLedger.ShiftedTotalPositive | include/ga.h:561 | with min at or below every entry and a larger max attained, `fitness_sum - N * min` is at least max - min, so it is positive |
| FitnessLedger.ExactStatsTableDefined | include/ga.h:559-569 | exact minimum, maximum and sum never make the table divide by zero |
| FitnessLedger.SumShiftedShares | include/ga.h:559-580 | the shifted shares add up to the shifted total divided by the divisor |
| FitnessLedger.ShiftedSharesDistribution | include/ga.h:559-580 | under exact statistics with min < max, every shifted share is non-negative and the shares add up to 1 |
| FitnessLedger.EqualShareTable | include/ga.h:537-555 | when min == max, entry i is (i + 1) / N, the table strictly increases and its last entry is 1 |
| FitnessLedger.PrefixSumsWheel | include/ga.h:565-580 | running sums of non-negative shares that total 1 lie in [0, 1], never decrease and end at 1 |
| FitnessLedger.TableOfIsCumulativeTable | include/ga.h:535-585 | wherever the table is defined, a sequence meets the division-free statement (entry i times N is i + 1 when min == max; otherwise entry i times the shifted total is the shifted total of slots 0..i) exactly when it is the cumulative table |
| FitnessLedger.CumulativeTableScaled | include/ga.h:535-585 | the cumulative table meets its division-free statement |
| FitnessLedger.EqualTableScaled | include/ga.h:546-553 | when min == max, entry i of the table times N is i + 1 |
| FitnessLedger.ShiftedTableScaled | include/ga.h:561-580 | when min != max, entry i of the table times `fitness_sum - N * min` is the shifted total of slots 0..i |
| FitnessLedger.ShiftedEntryScaled | include/ga.h:561-580 | the same for one entry i |
| FitnessLedger.GeneralTable | include/ga.h:559-580 | when min < max, min is at or below every entry and the sum is the ledger's: every entry lies in [0, 1], the table never decreases and its last entry is 1 |
| Selector.SimilarFitUnique | include/ga.h:660-687 | at most one slot meets the description of the similar-fit substitute |
| Selector.SelectSimilarFit | include/ga.h:659-687 | the result is present exactly when some other slot differs in fitness by less than DBL_MAX; it is then a slot other than k, closest in fitness to k, and the earliest such slot on ties |
| Selector.WheelSlot | include/ga.h:624-650 | the wheel always lands on a slot of the table |
| Selector.WheelSlotSpec | include/ga.h:624-650 | a draw at or above the last entry lands on the last slot; any other draw lands on the first slot whose entry exceeds it |
| Selector.WheelSlotInterval | include/ga.h:633-650 | on a non-decreasing table, slot i is chosen exactly when the draw lies in [entry i-1, entry i) |
| Selector.RouletteWheelSelection | include/ga.h:614-653 | the wheel's slot, or its similar-fit substitute when that slot is the excluded one; a present result is a slot and never the excluded one |
| Selector.SelectCrossOverParents | include/ga.h:588-605 | two distinct slots: the wheel's two choices, or slots 0 and 1 when either choice is null |
| Elitism.AsWrittenExactWithinRange | include/ga.h:461-501 | the source's conditional re-scan gives exact extrema whenever the incoming fitness lies within the generation's [min, max] |
| Elitism.ElitismExtrema | include/ga.h:461-501 | the corrected re-scan condition always gives the exact minimum and maximum after the elite slot is overwritten |
| Elitism.KeptExtremaExact | include/ga.h:461-501 | an extremum that neither left with the overwritten slot nor was passed by the incoming value is still exact |
| Elitism.AsWrittenStaleMinimum | include/ga.h:484-501 | as written, ledger [5, 10, 10] with previous best 0 in slot 1 keeps the stale minimum 5, and the shifted total becomes 0 |
| Elitism.AsWrittenStaleMaximum | include/ga.h:419-484 | as written, ledger [5, 10, 10] with the previous best 20 put into slot 0 keeps the maximum at 10 while slot 0 holds 20 (the re-scan of ga.h:484 takes the minimum to 10); the corrected re-scan gives (10, 20) |
| Elitism.AsWrittenFallingTable | include/ga.h:484-501 | as written, ledger [5, 10, 10, 10] with previous best 0 in slot 1 gives the falling table [0, -1, 0, 1] |
| GaEngine.ScanStep | include/ga.h:519-532 | one more slot of the `updateCurrentGenMinMaxFitness` fold keeps the running sum, the exact minimum, and the maximum at the last slot that holds it |
| GaEngine.SimpleGa.constructor | include/ga.h:120-158 | the defaults: population 100, 1000 generations, crossover 0.8, mutation 0.1, allele mutation 0.1, elitism on, counter -1, extrema at minus and plus DBL_MAX |
| GaEngine.SimpleGa.SetParameters | include/ga.h:249-272 | a population size below 2 is refused and the previous size kept; the other five parameters are stored as given |
| GaEngine.SimpleGa.ScorePopulation | include/ga.h:393-407 | the ledger holds every slot's fitness, the sum is the ledger's sum, the minimum and maximum are exact, and the best individual comes from the last slot holding the maximum |
| GaEngine.EqualShareRunningSums | include/ga.h:546-553 | the loop adding `1.0/POPULATION_SIZE` once per slot yields the running sums of the equal shares |
| GaEngine.ShiftedShareRunningSums | include/ga.h:561-580 | the loop adding each slot's shifted fitness over the shifted total yields the running sums of the shifted shares |
| GaEngine.SimpleGa.ResetCumulativeMap | include/ga.h:535-585 | the table built by the loops is the cumulative table of the ledger and its statistics |
| GaEngine.SimpleGa.RescanBest | include/ga.h:462-481 | the `>=` re-scan finds the maximum at the last slot holding it, with that slot's individual |
| GaEngine.SimpleGa.RescanMinimum | include/ga.h:484-501 | the `<=` re-scan finds the exact minimum |
| GaEngine.SimpleGa.RefreshWheel | include/ga.h:511-515 | the average is sum / N, so average times N is the sum; the wheel is the cumulative table, which is defined, and meets its division-free statement |
| GaEngine.SimpleGa.InitializeRandomPopulation | include/ga.h:352-415 | the slots are allocated on the first call only; the initial population is scored, the run-best restarts from its best, and the engine is left in its valid state |
| GaEngine.SimpleGa.ScoreInitial | include/ga.h:393-414 | the initial population is installed and scored, with run-best equal to the generation best and a rebuilt wheel |
| GaEngine.SimpleGa.TakeGenerationBest | include/ga.h:409-410 | the run-best becomes the generation's best, and its fitness is the best individual's fitness |
| GaEngine.SimpleGa.ReplaceElite | include/ga.h:444-503 | after the elite slot is overwritten, that slot holds the incoming individual and its fitness and the sum is adjusted (ga.h:452-459); the extrema are recomputed with the corrected re-scan (Elitism.ElitismExtrema), not the conditions of ga.h:462 and ga.h:484, so they are exact again |
| GaEngine.SimpleGa.InstallGeneration | include/ga.h:419-503 | the next generation is scored; with elitism the elite slot holds the previous best and its fitness, and, under the corrected re-scan, the new maximum is at least the previous best |
| GaEngine.SimpleGa.KeepRunBest | include/ga.h:505-510 | the run-best moves only on strict improvement, and stays at least the generation's best |
| GaEngine.SimpleGa.CopyNextGeneration | include/ga.h:419-516 | the population is the next generation, with the previous best in the elite slot under elitism; the run-best moves only on strict improvement; with the corrected elitism re-scan the engine stays valid (exact extrema) and the settings are untouched |
| GaEngine.SimpleGa.BreedGeneration | include/ga.h:317-327 | each slot crosses exactly when its coin is at most the crossover probability, with parents as selectCrossOverParents picks them, and mutates exactly when its coin is at most the mutation probability |
| GaEngine.SimpleGa.NextGeneration | include/ga.h:314-338 | one pass of the loop adds exactly 1 to the counter, never lowers the run-best and, with the corrected elitism re-scan, keeps the engine valid |
| GaEngine.SimpleGa.Evolve | include/ga.h:312-338 | the loop stops exactly at the first check where shouldStop holds, or when the draws run out; the run-best trace never decreases |
| GaEngine.SimpleGa.Run | include/ga.h:294-348 | the counter equals the generations made; the default stop rule makes min(max(MAX_NUM_OF_GENERATIONS, 0), supply) generations; the run-best starts at the initial maximum and never decreases; shouldStop failed at every earlier check |
| GaEngine.SimpleGa.InitialBest | include/ga.h:409-410 | right after initialisation the run-best is the initial population's maximum fitness |
| GaEngine.SimpleGa.TableIsWheel | include/ga.h:535-585 | in every valid state the wheel has one entry per slot, each in [0, 1], never decreasing, and its last entry is 1 |
| Crossovers.OnePointSplice | include/util/crossovers.h:73-82 | the first p alleles come from the first parent and the rest from the second |
| Crossovers.TwoPointSplice | include/util/crossovers.h:136-150 | alleles in [p1, p2) come from the second parent and all others from the first |
| Crossovers.OnePointCrossover | include/util/crossovers.h:50-92 | with equal sizes above 1, the coin orders the parents and the offspring is their splice at the point; otherwise parent1 is returned unchanged |
| Crossovers.TwoPointCrossover | include/util/crossovers.h:95-160 | with equal sizes above 2, the coin orders the parents, the points are put in order, and the offspring is the two-point splice; otherwise parent1 is returned unchanged |
| Crossovers.OnePointTakesFromBoth | include/util/crossovers.h:70-82 | a point in [1, L-1] makes the offspring open with the first parent's allele and close with the second's |
| Crossovers.TwoPointEqualPoints | include/util/crossovers.h:122-150 | equal points give the first parent exactly |
| Crossovers.OffspringFromParents | include/util/crossovers.h:74-150 | every position of either operator's offspring holds that position's allele in one of the parents |
| Crossovers.TwoPointIsTwoSplices | include/util/crossovers.h:136-150 | a two-point crossover equals two one-point splices |
| Crossovers.PointOrderIrrelevant | include/util/crossovers.h:129-134 | ordering the points makes the order of the two draws irrelevant |
| NQueen.GetFitness | src/examples/n_queen/nqueen_ga.cpp:56-79 | the nested loops compute minus the number of conflicting pairs |
| NQueen.ConflictRowSize | src/examples/n_queen/nqueen_ga.cpp:62-76 | the inner loop counts exactly the earlier columns in conflict with column i |
| NQueen.ConflictsCountPairs | src/examples/n_queen/nqueen_ga.cpp:60-77 | each conflicting pair j < i is counted exactly once |
| NQueen.ConflictsFromAtMost | src/examples/n_queen/nqueen_ga.cpp:62-76 | a column has at most one conflict per earlier column |
| NQueen.ConflictsBound | src/examples/n_queen/nqueen_ga.cpp:60-77 | there are at most m(m-1)/2 conflicts among m columns |
| NQueen.FitnessBounds | src/examples/n_queen/nqueen_ga.cpp:56-79 | -N(N-1)/2 <= fitness <= 0 |
| NQueen.ConflictsFromZero | src/examples/n_queen/nqueen_ga.cpp:62-76 | column i has no conflict exactly when no earlier column attacks it |
| NQueen.ConflictsZero | src/examples/n_queen/nqueen_ga.cpp:60-77 | zero conflicts exactly when no pair attacks |
| NQueen.StopIffSolved | src/examples/n_queen/nqueen_ga.cpp:234-237 | the fitness is 0 exactly on a conflict-free board, and the n-queens shouldStop holds on that fitness exactly then |
| NQueen.AttacksOnBoard | src/examples/n_queen/nqueen_ga.cpp:64-72 | on rows within the board the edge guards never matter: a conflict is a shared row or a shared diagonal |
| NQueen.FourQueensSolution | src/examples/n_queen/nqueen_ga.h:25-36 | the documented board {2, 0, 3, 1} is a permutation without conflicts, and its fitness is 0 |
| NQueen.ConflictList | src/examples/n_queen/nqueen_ga.cpp:269-293 | every entry of the conflicting-position list lies in [1, m-1] |
| NQueen.GetConflictingPositions | src/examples/n_queen/nqueen_ga.cpp:269-293 | the loops push exactly the conflict list |
| NQueen.ConflictListLength | src/examples/n_queen/nqueen_ga.cpp:269-293 | the list is as long as the number of conflicting pairs, which is minus the fitness |
| NQueen.ConflictListOrdered | src/examples/n_queen/nqueen_ga.cpp:274-291 | the entries appear in non-decreasing order |
| NQueen.ConflictListCounts | src/examples/n_queen/nqueen_ga.cpp:274-291 | column v appears once for each earlier column in conflict with it |
| NQueen.Swap | src/examples/n_queen/nqueen_ga.cpp:258-260 | the two positions exchange their alleles, every other position and the length are unchanged |
| NQueen.SwapMultiset | src/examples/n_queen/nqueen_ga.cpp:258-260 | a swap keeps the multiset of alleles |
| NQueen.Remove | src/examples/n_queen/nqueen_ga.cpp:263 | erasing entry j shifts the later entries down by one |
| NQueen.SwapMutationMultiset | src/examples/n_queen/nqueen_ga.cpp:242-267 | mutation keeps the length and the multiset |
| NQueen.SwapPermutation | src/examples/n_queen/nqueen_ga.cpp:258-260 | a swap of a board is a board |
| NQueen.SwapMutationPermutation | src/examples/n_queen/nqueen_ga.cpp:246-266 | the swaps from any column on turn a board into a board |
| NQueen.SwapMutationNoConflicts | src/examples/n_queen/nqueen_ga.cpp:251-253 | with no conflicting positions nothing is swapped |
| NQueen.SwapAlleles | src/examples/n_queen/nqueen_ga.cpp:258-260 | the array afterwards is the swap of the array before |
| NQueen.Mutate | src/examples/n_queen/nqueen_ga.cpp:242-267 | the array becomes the swap mutation of the conflict list; the multiset is kept; at most as many swaps as conflicts; a conflict-free individual is unchanged |
| NQueen.MutateAllele | src/examples/n_queen/nqueen_ga.cpp:248-265 | one column of the fold: the remaining positions and the array continue the mutation exactly as before the step |
| NQueen.MutationKeepsBoard | src/examples/n_queen/nqueen_ga.cpp:242-267 | a mutated board is still a board |
| NQueen.GetRandomIndiv | src/examples/n_queen/nqueen_ga.cpp:34-50 | a returned individual is a permutation of 0..N-1; fewer than N draws never suffice; when the first N draws land on distinct rows, they are the individual |
| NQueen.NQueenGa.constructor | src/examples/n_queen/nqueen_ga.h:47-62 | N below 4 keeps the default 100; otherwise N is set; the crossover point range is [1, N-1] |
| OrderCrossover.Holes | src/examples/n_queen/nqueen_ga.cpp:170-185 | every unassigned position lies at or past the point |
| OrderCrossover.OnePointOrderCrossover | src/examples/n_queen/nqueen_ga.cpp:140-217 | on a mismatch, the first (coin-ordered) parent; otherwise the order-crossover offspring: the prefix, every kept value, and the holes filled with the unassigned values in order |
| OrderCrossover.CopyPrefix | src/examples/n_queen/nqueen_ga.cpp:161-166 | the buffer starts with the first parent's prefix, and the taken set is exactly the prefix's values |
| OrderCrossover.CopyUnused | src/examples/n_queen/nqueen_ga.cpp:168-185 | the prefix is kept, kept positions get the second parent's value, and the recorded positions are the holes |
| OrderCrossover.CollectUnassigned | src/examples/n_queen/nqueen_ga.cpp:187-195 | the collected values are the second parent's values never taken, in order |
| OrderCrossover.FillHoles | src/examples/n_queen/nqueen_ga.cpp:208-214 | hole k receives unassigned value k and no other position changes |
| OrderCrossover.HolesIncreasing | src/examples/n_queen/nqueen_ga.cpp:170-185 | the holes are recorded in strictly increasing order |
| OrderCrossover.HoleIsUnassigned | src/examples/n_queen/nqueen_ga.cpp:172-179 | a hole is a position whose second-parent value was already taken |
| OrderCrossover.UnassignedIsHole | src/examples/n_queen/nqueen_ga.cpp:172-179 | every position whose second-parent value was already taken is a hole |
| OrderCrossover.OrderOffspringUnique | src/examples/n_queen/nqueen_ga.cpp:140-217 | the offspring description allows exactly one result |
| OrderCrossover.LeftoversFrom | src/examples/n_queen/nqueen_ga.cpp:187-195 | every unassigned value comes from the second parent and was never taken |
| OrderCrossover.LeftoversDistinct | src/examples/n_queen/nqueen_ga.cpp:187-195 | the unassigned values have no repetitions |
| OrderCrossover.SeenPrefix | src/examples/n_queen/nqueen_ga.cpp:168-185 | for a repetition-free second parent, a position at or past the point is a hole exactly when the first parent's prefix holds its value |
| OrderCrossover.HolesAsSet | src/examples/n_queen/nqueen_ga.cpp:168-185 | the holes are as many as the prefix values the second parent holds from the point on |
| OrderCrossover.UnassignedAsSet | src/examples/n_queen/nqueen_ga.cpp:187-195 | the unassigned values are as many as the second parent's values before the point that are missing from the prefix |
| OrderCrossover.PermutationsNeverMismatch | src/examples/n_queen/nqueen_ga.cpp:197-206 | for two boards the fallback is unreachable: the holes and the unassigned values are equally many |
| OrderCrossover.OrderOffspringPermutation | src/examples/n_queen/nqueen_ga.cpp:140-217 | crossing two boards gives a board |
| OrderCrossover.DocumentedExample | src/examples/n_queen/nqueen_ga.cpp:89-137 | a b c d e f g h i j crossed with d g b a i c j e f h at point 3 gives a b c d i g j e f h |
| FunctionMinimizer.GetFitness | src/examples/math_functions/function_minimizer_ga.cpp:42-45 | fitness plus the function value is 0 |
| FunctionMinimizer.FitterIffLower | src/examples/math_functions/function_minimizer_ga.cpp:17 | a point is fitter exactly when the function is lower there, and equally fit exactly when the function values are equal |
| FunctionMinimizer.CrossOver | src/examples/math_functions/function_minimizer_ga.cpp:51-65 | with weight in [0, 1] each coordinate of the child lies between the parents' coordinates |
| FunctionMinimizer.CrossOverOnSegment | src/examples/math_functions/function_minimizer_ga.cpp:19-21 | the child lies on the line through the parents, at the weight times their difference from the second parent |
| FunctionMinimizer.CrossOverEnds | src/examples/math_functions/function_minimizer_ga.cpp:55-62 | weight 1 gives parent1, weight 0 gives parent2, swapping the parents complements the weight, and equal parents give that parent |
| FunctionMinimizer.IncrementRange | src/examples/math_functions/function_minimizer_ga.cpp:154-162 | the mutation step range is [-0.1 * abs(max - min), +0.1 * abs(max - min)] |
| FunctionMinimizer.FunctionMinimizerGa.Uniform | src/examples/math_functions/function_minimizer_ga.h:40-45 | both variables get the same bounds, and the distributions agree with them |
| FunctionMinimizer.FunctionMinimizerGa.constructor | src/examples/math_functions/function_minimizer_ga.h:50-55 | each variable gets its own bounds, and the distributions agree with them |
| FunctionMinimizer.FunctionMinimizerGa.InitMinMax | src/examples/math_functions/function_minimizer_ga.cpp:137-163 | stores the bounds, the draw ranges [min, max] and the step ranges of a tenth of each range |
| FunctionMinimizer.FunctionMinimizerGa.GetRandomIndiv | src/examples/math_functions/function_minimizer_ga.cpp:30-36 | a draw from each variable's distribution gives a point in the box |
| FunctionMinimizer.FunctionMinimizerGa.BoundX | src/examples/math_functions/function_minimizer_ga.cpp:101-113 | y is unchanged; x ends in [min.x, max.x] when min.x <= max.x; an x already in range is left alone |
| FunctionMinimizer.FunctionMinimizerGa.BoundY | src/examples/math_functions/function_minimizer_ga.cpp:119-131 | x is unchanged; y ends in [min.y, max.y] when min.y <= max.y; a y already in range is left alone |
| FunctionMinimizer.FunctionMinimizerGa.BoundIdempotent | src/examples/math_functions/function_minimizer_ga.cpp:104-112 | on a well-formed box, clamping twice is clamping once |
| FunctionMinimizer.FunctionMinimizerGa.BoundNearest | src/examples/math_functions/function_minimizer_ga.cpp:101-131 | the clamped coordinate is the point of the range nearest to the original |
| FunctionMinimizer.FunctionMinimizerGa.InvertedRangeNotIdempotent | src/examples/math_functions/function_minimizer_ga.cpp:104-112 | with min.x = 1 and max.x = 0, clamping x = 0 gives 1, and clamping again gives 0 |
| FunctionMinimizer.FunctionMinimizerGa.Mutate | src/examples/math_functions/function_minimizer_ga.cpp:79-95 | a selection draw of at most 0.5 changes only x, any other draw only y, and the changed coordinate ends in its bounds |
| FunctionMinimizer.FunctionMinimizerGa.MutateKeepsBox | src/examples/math_functions/function_minimizer_ga.cpp:79-95 | mutation keeps a point of the box in the box |
| FunctionMinimizer.FunctionMinimizerGa.MutateStepBounded | src/examples/math_functions/function_minimizer_ga.cpp:79-95 | a point of the box moves by at most the drawn increment, so by at most a tenth of the variable's range |

## Left out

- Random engines and distributions (`mt19937`, `uniform_*_distribution`,
  `rand()`, the static engines of crossovers.h): every draw is a parameter of
  the operation that consumes it. The model makes no statistical claim.
- Console output: `displaySettings`, `displayResults`, `displayIndiv` and the
  `cerr` diagnostics. The model keeps the decisions next to them: setParameters
  still refuses a size below 2, and the crossover mismatch still returns
  parent1.
- Heap management: the `new` and `delete` of the population and of the
  next-generation buffer, and the destructor. Slots are a sequence.
- Floating point: fitness and probabilities are `real`. IEEE-754 rounding of
  the cumulative table is not modelled. The wheel's "draw at or above the last
  entry" branch is kept even though in exact arithmetic the last entry is
  exactly 1. The `float` conversions of the shuffle and selection draws are
  not modelled.
- The demo programs and their test functions (Schaffer N.4, Cross-in-Tray,
  McCormick). The function to minimise is a parameter.
- The crossovers.h compile quirks: assignments to `const` parents, a
  `vector<int>` temporary, and static distributions that keep the first
  call's length. The model follows the evident intent: a swap coin, and a
  point whose range is the caller's obligation.
- GaEngine.SimpleGa.InitializeRandomPopulation: getRandomIndiv is not called
  per slot. The initial individuals arrive as a sequence, because the engine
  only requires a hook of that name.
- GaEngine.SimpleGa.InitializeRandomPopulation: requires the population size
  to fit the first allocation. The source would write past its array after
  raising the size between two runs.
- GaEngine.SimpleGa.Run: consumes a finite supply of generation draws. A run
  that has not stopped when the supply ends is reported as stopped early. The
  problem-specific crossover and mutation are opaque functions of their draws.
- GaEngine.SimpleGa.ResetCumulativeMap: requires statistics for which the
  table is defined, which exact statistics always are
  (FitnessLedger.ExactStatsTableDefined). The source divides by a zero
  shifted total otherwise (see Findings).
- GaEngine.SimpleGa.ReplaceElite: runs the corrected re-scan (Elitism.ElitismExtrema),
  not the conditions of include/ga.h:462 and include/ga.h:484. The stale
  extrema those conditions leave are modelled only in module Elitism
  (Elitism.ElitismExtremaAsWritten, see Findings), not in the engine's state.
- GaEngine.SimpleGa.InstallGeneration: its promise that the new maximum is at
  least the previous best holds only under the corrected re-scan. As written,
  the maximum can stay below the elite's fitness
  (Elitism.AsWrittenStaleMaximum).
- GaEngine.SimpleGa.CopyNextGeneration: keeps the engine valid, with exact
  extrema and a wheel that is a distribution, only because it uses the
  corrected re-scan. The program can leave stale extrema, a wheel of equal
  shares, a zero shifted total or a falling table (see Findings).
- GaEngine.SimpleGa.NextGeneration: inherits the corrected re-scan from
  GaEngine.SimpleGa.CopyNextGeneration, and so does GaEngine.SimpleGa.Evolve
  and GaEngine.SimpleGa.Run through it.
- FunctionMinimizer.FunctionMinimizerGa.BoundX, BoundY and Mutate: the program
  updates the individual in place. Here they return the updated record,
  because each call touches only that one individual and keeps no other state.
  Aliasing of the individual is not modelled.
- The n-queens engine hooks are proved one by one. The composition of
  simple_ga<vector<int>> with these operators is not instantiated as a single
  object.
- NQueen.GetRandomIndiv: the rejection loop draws from a finite supply and
  returns None when the supply runs out. The source loops until it succeeds,
  which happens only with probability 1.
- NQueen.Mutate: the swap count is a ghost out-parameter. The source does not
  return it.
- FunctionMinimizer.FunctionMinimizerGa.BoundIdempotent: holds only for a
  well-formed box (min <= max). The source never checks this, and
  FunctionMinimizer.FunctionMinimizerGa.InvertedRangeNotIdempotent shows what
  happens otherwise.

## Findings

| source | as written | input that shows it | evidently intended | confidence | as-written member | corrected member |
|---|---|---|---|---|---|---|
| include/ga.h:462-501 | after elitism overwrites a slot, the generation maximum and minimum are re-scanned only when the overwritten slot held that extremum | ledger [5, 10, 10], elite slot 1, previous best 0: the minimum stays 5 although slot 1 now holds 0, the shifted total is 15 - 3 * 5 = 0, and `resetCumulativeMap` divides by zero; with [5, 10, 10, 10] the table becomes [0, -1, 0, 1] | also re-scan when the incoming fitness lies beyond the extremum, so the extrema stay exact and the wheel stays a distribution | high (not executed) | Elitism.AsWrittenStaleMinimum | Elitism.ElitismExtrema |
| include/ga.h:419-484 | the maximum is re-scanned only when the overwritten slot held it, so an elite above the new generation's maximum is not seen | ledger [5, 10, 10], elite slot 0, previous best 20: only the minimum is re-scanned (to 10), the maximum stays 10 while slot 0 holds 20, and `resetCumulativeMap` hands out equal shares. gen_best_individual stays the fitness-10 individual, which ga.h:421 copies into prev_gen_best_individual, so the next generation's elite slot receives it rather than the 20; elitism loses the best | also re-scan the maximum when the incoming fitness exceeds it | high (not executed) | Elitism.AsWrittenStaleMaximum | Elitism.ElitismExtrema |

`selectSimilarFit` starts its least difference at DBL_MAX with a strict `<`.
It returns null when every other slot differs by DBL_MAX or more, which is
possible for fitness values near plus and minus DBL_MAX.
Selector.SelectSimilarFit states this case, and `selectCrossOverParents`
handles it with its fallback to slots 0 and 1. The engine uses the corrected
re-scan in GaEngine.SimpleGa.ReplaceElite (see "## Left out"). Elitism.AsWrittenFallingTable is
a second witness for the finding.
