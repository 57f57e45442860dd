# Travelling-salesman heuristics, modelled in Dafny

This project models the three travelling-salesman solvers of the
ExpertSystemHW repository and proves properties about them:

- the steady-state genetic algorithm (SSGA) in two versions:
  `algos/ssga.py` and the older `hw1/algos/ssga.py`;
- simulated annealing in `algos/sim_ann.py`;
- ant colony optimisation (ACO) in `algos/aco.py`.

Every solver takes a distance matrix and returns the cost of the best
tour it found, together with that tour. Along the way it records the best
cost of every iteration.

Every random draw the Python code makes becomes an explicit parameter, with
a predicate stating its range. This covers:

- the initial permutations and the shuffle;
- `np.random.choice` and `np.random.randint`;
- the mutation coin;
- the Metropolis comparison;
- each ant's start city and its choice among the unvisited cities.

Each solver is then a pure function of its inputs and its draws. Where the
Python code raises an exception on some input, the model returns
`Failure` with the matching `Outcome.Error`. The preconditions of the
four solvers ask only for a distance matrix, of any size including zero or
one city, and for draws in range. No value of the solvers' own arguments
is excluded.

Modules, in dependency order:

| module | file | what it holds |
|---|---|---|
| `Numeric` | `numeric.dfy` | ceiling, floor division and maximum as Python computes them; non-increasing sequences; the running minimum |
| `Tours` | `tours.dfy` | distance matrices, tours as permutations of `0..n-1`, the cyclic tour cost in its two written forms, rotation, reversal and swap |
| `Genetic` | `genetic.dfy` | the operators both SSGA files share: fitness, ranking, ordered crossover, crossover, mutation |
| `Outcome` | `outcome.dfy` | the exceptions the solvers can raise, and `Result` |
| `SteadyState` | `steady_state.dfy` | one SSGA generation and the generation loop, parameterised by the parent-selection rule |
| `Ssga` | `ssga.dfy` | `algos/ssga.py`: elite count `max(1, P//2 // percent_reduction)` |
| `SsgaHw1` | `ssga_hw1.dfy` | `hw1/algos/ssga.py`: half elites, half random parents |
| `SimAnn` | `sim_ann.dfy` | simulated annealing |
| `Aco` | `aco.dfy` | ant colony optimisation |

Number types:

- Distances and tour costs are `int`.
- Fitness, mutation rates, temperatures and pheromone levels are `real`.

`hw1/algos/ssga.py` repeats `evaluate_fitness`, `ordered_crossover`,
`crossover` and `mutate` line for line from `algos/ssga.py` (lines 14-113
against 16-118). The `Genetic` rows below cite the `algos/ssga.py` copy.

## Model

| member | source | states |
|---|---|---|
| Numeric.CeilOfInt | algos/ssga.py:181 | `math.ceil` of a whole-number distance is that distance, so the returned cost is the integer tour cost |
| Numeric.ReciprocalAntitone | algos/ssga.py:29 | a shorter positive distance has a strictly larger reciprocal, so the highest fitness belongs to the shortest tour |
| Numeric.RunningMinimum | algos/aco.py:122-126 | a record built by "replace only on strict improvement" holds at each step the minimum of all costs offered so far, and that minimum is one of them |
| Tours.PermutationFacts | algos/ssga.py:154 | a permutation of `0..n-1` has length `n`, contains only cities, contains each city exactly once, and contains every city |
| Tours.CostFormsAgree | algos/ssga.py:27-28 | the genetic algorithm's cost (the chain of consecutive edges plus the closing edge) equals the modular cyclic sum of `distance` and ACO |
| Tours.RotationInvariant | algos/sim_ann.py:16-17 | the cyclic cost does not depend on which city the tour starts from |
| Tours.ReversalInvariant | algos/sim_ann.py:16-17 | on a symmetric matrix, walking the tour the other way round does not change its cyclic cost |
| Tours.SingleCity | algos/ssga.py:27-28 | over a single city the only tour is `[0]`, and it costs 0 |
| Tours.CostPositive | algos/ssga.py:27-29 | on a distance matrix with at least two cities, every tour costs at least the number of cities, so the reciprocal fitness is defined |
| Genetic.OxChild | algos/ssga.py:54-76 | an ordered-crossover child is a permutation: it copies the first parent on the cut slice, and fills the other positions, left to right, with the second parent's cities that are not in the slice, in the second parent's order |
| Genetic.OrderedCrossover | algos/ssga.py:64-76 | the imperative fill loop, with `parent2_ptr` skipping cities already placed, computes exactly `OxChild` for the sorted cut points |
| Genetic.OxEqualCuts | algos/ssga.py:66-67 | when both cut points coincide, the slice is empty and the child is the second parent |
| Genetic.OxSelf | algos/ssga.py:54-76 | crossing a tour with itself returns that tour, whatever the cuts |
| Genetic.Crossover | algos/ssga.py:79-99 | `num_children` children, each a permutation of the cities; child `k` is the ordered-crossover child of the two parents its draw names, cut at the sorted pair of drawn points |
| Genetic.Mutate | algos/ssga.py:102-118 | a child whose coin is below the rate has its two drawn positions exchanged and nothing else changed; any other child is unchanged; contents are preserved |
| Genetic.MutateKeepsPermutations | algos/ssga.py:113-118 | mutation maps tours to tours |
| Genetic.Fitness | algos/ssga.py:27-29 | fitness is positive and is the reciprocal of the cyclic tour cost |
| Genetic.EvaluateFitness | algos/ssga.py:16-29 | one fitness per row, each the reciprocal of that row's cost |
| Genetic.ArgMax | algos/ssga.py:165 | `np.argmax`: an index of a largest score, and the first such index |
| Genetic.LeastCost | algos/ssga.py:165-166 | the least cost in a population is at most every row's cost and is some row's cost |
| Genetic.FittestIsCheapest | algos/ssga.py:165-166 | a row of maximal fitness is a row of least cost, and `1.0 / fitness` there is that cost |
| Genetic.BestDistanceIsLeastCost | algos/ssga.py:165-166 | the recorded best distance `1.0 / fitness[argmax]` is the least tour cost of the population |
| Genetic.RankDescending | algos/ssga.py:44 | `argsort(...)[::-1]`: a permutation of the row indices that orders the scores from highest to lowest |
| Genetic.TopOfRanking | algos/ssga.py:44-46 | the first `count` ranked indices are distinct, in descending score order, and each scores at least every index left out |
| Genetic.ElitesAreFittest | algos/ssga.py:44-46 | the elites are distinct rows of the population in descending fitness; the first is a fittest row, and no row left out is fitter than any elite |
| Genetic.Breed | algos/ssga.py:159-163 | the next population is the parents unchanged, followed by the crossover children after mutation, every row a tour |
| Genetic.Elites | algos/ssga.py:44-46 | exactly `elite_count` rows are taken; `Genetic.ElitesAreFittest` states which |
| Genetic.RowsAt | algos/ssga.py:49-50 | `population[indices]`: row `i` of the result is the population row at the `i`-th index |
| SteadyState.SelectParents | algos/ssga.py:32-51 | the parents are the elites followed by the randomly picked rows, in that order |
| SteadyState.ParentsAreRows | algos/ssga.py:44-50 | every selected parent is a row of the current population |
| SteadyState.FirstParentIsFittest | algos/ssga.py:44-46 | with at least one elite, the first parent is a fittest row of the population |
| SteadyState.Step | algos/ssga.py:157-163 | one generation maps a population of tours to a population of tours: the selected parents, followed by their crossover children after mutation |
| SteadyState.StepKeepsBest | algos/ssga.py:157-163 | with at least one elite, the new population's first row is a cheapest tour of the old one, so the least cost never rises in a generation |
| SteadyState.MutationRate | algos/ssga.py:121-134 | the adaptive mutation rate never drops below 0.01 |
| SteadyState.MutationRateDecays | algos/ssga.py:132 | the rate starts at `max(0.01, seed)` and never increases from one generation to a later one |
| SteadyState.PopulationAt | algos/ssga.py:154-163 | every population of the run is a non-empty set of tours, of the planned size |
| SteadyState.Trace | algos/ssga.py:155-167 | one recorded best distance per generation; `SteadyState.TraceIsLeastCost` states each entry |
| SteadyState.TraceIsLeastCost | algos/ssga.py:165-167 | entry `g` of the recorded distances is the least tour cost of the population evaluated in generation `g` |
| SteadyState.LeastCostNeverRises | algos/ssga.py:157-167 | the least cost of a later generation is at most that of an earlier one |
| SteadyState.TraceNonIncreasing | algos/ssga.py:165-167 | the recorded best distances never increase |
| SteadyState.BestIndex | algos/ssga.py:173-174 | the final `argmax` indexes a cheapest tour of the last evaluated population |
| SteadyState.Finish | algos/ssga.py:173-181 | the result is an `IndexError` exactly when that index is outside the replaced population; otherwise the reported cost is the last least cost, and the tour is the replaced population's row at that index |
| SteadyState.FinishCorrected | algos/ssga.py:173-181 | reading the tour from the evaluated population reports a tour whose cost is the reported cost, the last least cost |
| Ssga.EliteCount | algos/ssga.py:45 | `max(1, num_parents // percent_reduction)` is at least one |
| Ssga.EliteCountFits | algos/ssga.py:45 | with at least one parent the elite count is between 1 and the number of parents; a negative `percent_reduction` gives one elite |
| Ssga.PlanOf | algos/ssga.py:152-163 | `P // 2` parents, of which `EliteCount` are elites, and `P // 2` children per generation |
| Ssga.PopulationSizes | algos/ssga.py:154-163 | the population has `P` rows at first and `P - P % 2` rows after every replacement |
| Ssga.Solve | algos/ssga.py:137-181 | each exception of the source on its inputs, in the order Python meets them: no generations, empty population, tours of no cities, zero `percent_reduction`, negative sample size for `P == 1`; over one city, the tour `[0]` at cost 0 with every recorded distance 0.0; over two cities or more, success or the final `IndexError` only |
| Ssga.SolveReport | algos/ssga.py:173-181 | a successful run reports the least cost of the last generation and a tour of the cities, with one recorded distance per generation ending at the reported cost |
| Ssga.SolveTraceNonIncreasing | algos/ssga.py:165-167 | the recorded best distances of a successful run never increase |
| Ssga.SolveSucceeds | algos/ssga.py:173-175 | a runnable configuration succeeds exactly when `P` is even, or there are two generations or more, or the best row is not the last one |
| Ssga.SolveCorrected | algos/ssga.py:173-181 | with the tour read from the evaluated population, every runnable configuration over at least one city succeeds with a tour whose cost is the reported cost, the last least cost |
| Ssga.SolveAgreesWithCorrected | algos/ssga.py:173-181 | whenever the source succeeds, the corrected version reports the same cost and trace |
| Ssga.OddSingleGenerationFails | algos/ssga.py:173-175 | for odd `P`, one generation, and the best tour in the last row, the source raises `IndexError` while the corrected version returns that tour's cost |
| Ssga.OddSingleGenerationLosesTour | algos/ssga.py:173-175 | a concrete four-city input with three tours on which the source raises `IndexError` and the corrected version reports cost 4 |
| SsgaHw1.PlanOf | hw1/algos/ssga.py:148-154 | `P // 2 // 2` elites and as many random parents, and `P // 2` children per generation |
| SsgaHw1.Shortfall | hw1/algos/ssga.py:150-154 | a replaced population is short of `P` by 0, 1 or 2 rows, and by none exactly when `P` is a multiple of 4 |
| SsgaHw1.PopulationSizes | hw1/algos/ssga.py:150-154 | the population has `P` rows at first, then `P - Shortfall(P)` rows in every later generation, the same size each time |
| SsgaHw1.FiftyRowsKeepFortyNine | hw1/algos/ssga.py:150-154 | with 50 tours, every generation after the first has 49 rows |
| SsgaHw1.Solve | hw1/algos/ssga.py:130-169 | each exception of the source on its inputs, in the order Python meets them: no generations, empty population, tours of no cities, `IndexError` or empty `argmax` for `P == 1`, an empty parent range for `P` of 2 or 3; over one city, the tour `[0]` at cost 0 with every recorded distance 0.0; over two cities or more, success or the final `IndexError` only |
| SsgaHw1.SolveReport | hw1/algos/ssga.py:165-169 | a successful run reports the least cost of the last generation and a tour of the cities, with one recorded distance per generation ending at the reported cost |
| SsgaHw1.SolveTraceNonIncreasing | hw1/algos/ssga.py:156-158 | the recorded best distances of a successful run never increase |
| SsgaHw1.LeastCostNeverRisesHere | hw1/algos/ssga.py:148-158 | the least cost of a later generation is at most that of an earlier one |
| SsgaHw1.SolveSucceeds | hw1/algos/ssga.py:165-167 | a runnable configuration succeeds exactly when `P` is a multiple of 4, or there are two generations or more, or the best row still exists after the population shrinks |
| SsgaHw1.SolveCorrected | hw1/algos/ssga.py:165-169 | with the tour read from the evaluated population, every runnable configuration over at least one city (and the single tour of `P == 1`, `G == 1`) succeeds with a tour whose cost is the reported cost |
| SsgaHw1.ShrunkSingleGenerationFails | hw1/algos/ssga.py:165-167 | for `P` not a multiple of 4, one generation, and the best tour in the last row, the source raises `IndexError` while the corrected version returns that tour's cost |
| SsgaHw1.FiveRowsLoseTour | hw1/algos/ssga.py:165-167 | a concrete four-city input with five tours on which the source raises `IndexError` and the corrected version reports cost 4 |
| SimAnn.DistanceIsGeneticCost | algos/sim_ann.py:16-17 | `distance` agrees with the genetic algorithm's cost, is positive, and is the reciprocal of its fitness |
| SimAnn.TemperatureStarts | algos/sim_ann.py:38 | the cooling schedule at iteration 0 is the initial temperature |
| SimAnn.TemperatureBetween | algos/sim_ann.py:38 | when the initial temperature is at least the final one, every scheduled temperature lies between them |
| SimAnn.Neighbour | algos/sim_ann.py:19-23 | the neighbour exchanges the cities at the two drawn positions, keeps every other position, and differs from a tour |
| SimAnn.NeighbourIsTour | algos/sim_ann.py:19-23 | a neighbour of a tour is a different tour of the same cities |
| SimAnn.Start | algos/sim_ann.py:56-61 | the shuffled path is both the current and the best tour, at the initial temperature, with nothing recorded |
| SimAnn.Iterate | algos/sim_ann.py:65-78 | one iteration moves to the neighbour, with its distance, exactly when it is shorter or the Metropolis comparison succeeds, and otherwise keeps the current path; the best becomes the new current exactly when that is strictly shorter; both stay tours with their true costs, the best at most the current; the best distance is appended and the temperature follows the schedule |
| SimAnn.ShorterIsAccepted | algos/sim_ann.py:70-72 | a shorter neighbour becomes the current path whatever the Metropolis comparison says |
| SimAnn.LongerNeedsMetropolis | algos/sim_ann.py:70-72 | a neighbour that is not shorter becomes the current path exactly when the Metropolis comparison succeeds, and otherwise the current path stays |
| SimAnn.StateAt | algos/sim_ann.py:56-78 | after `k` iterations the current and best paths are tours with their true distances, the best no longer than the current, and the `k` recorded distances never rise and end at the best |
| SimAnn.TraceRecordsBest | algos/sim_ann.py:74-77 | entry `g` of the record is the best distance after iteration `g` |
| SimAnn.BestIsRunningMinimum | algos/sim_ann.py:65-77 | after `k` iterations the best distance is the least of all current distances so far, and is one of them |
| SimAnn.NoWorseThanStart | algos/sim_ann.py:58-76 | the best distance never exceeds the distance of the shuffled start |
| SimAnn.TemperatureInIteration | algos/sim_ann.py:61-78 | iteration 0 runs at the initial temperature and iteration `k` at the schedule's value for `k - 1`, so within the band between the two temperatures |
| SimAnn.Solve | algos/sim_ann.py:40-84 | fails exactly when it must draw two positions from fewer than two cities; otherwise returns a tour, its true cost no worse than the start, and a non-increasing record of one entry per iteration ending at that cost |
| Aco.InitialPheromones | algos/aco.py:14-23 | an `n` by `n` matrix with every level equal to the initial one |
| Aco.InitialPheromonesTotal | algos/aco.py:14-23 | the initial matrix holds `n * n` times the initial level in total |
| Aco.Heuristic | algos/aco.py:26-37 | each entry is the reciprocal of its distance, or 0 where the distance is 0 |
| Aco.HeuristicOfDistances | algos/aco.py:26-37 | on a distance matrix the heuristic is symmetric, zero on the diagonal, and positive elsewhere |
| Aco.Unvisited | algos/aco.py:62 | the unvisited list holds, in ascending order, exactly the cities not yet on the path |
| Aco.UnvisitedCount | algos/aco.py:60-62 | on a duplicate-free path of cities, the unvisited list has `n` minus the path length entries |
| Aco.WalkFollowsPicks | algos/aco.py:60-69 | city `k` of the walk is the city the `k`-th choice picks from the cities not yet visited at that point |
| Aco.ConstructPath | algos/aco.py:59-69 | an ant's path starts at its drawn city and visits every city exactly once |
| Aco.ConstructSolutions | algos/aco.py:55-73 | one path and one cost per ant; each path is a tour from the ant's start city, and each cost is its cyclic cost |
| Aco.ColonyCostsPositive | algos/aco.py:70 | with two cities or more every ant's cost is positive, so `Q / cost` is defined |
| Aco.Evaporate | algos/aco.py:89 | every level is multiplied by `1 - evaporation_rate`, and the shape is kept |
| Aco.DepositPath | algos/aco.py:91-92 | one ant's deposits keep an `n` by `n` matrix |
| Aco.DepositPathEntry | algos/aco.py:91-92 | one ant adds its amount to entry `a -> b` once for every occurrence of that directed edge on its path |
| Aco.UpdatePheromones | algos/aco.py:77-93 | the update keeps an `n` by `n` matrix; `Aco.UpdateEntry` states every entry |
| Aco.UpdateEntry | algos/aco.py:89-92 | after an update, each level is the evaporated old level plus `Q / cost` once for every time an ant's path uses that directed edge |
| Aco.UntouchedEntry | algos/aco.py:89-92 | a directed edge no ant used only evaporates |
| Aco.DepositIsDirected | algos/aco.py:92 | deposit goes on the edge in travel direction only: on a uniform three-city matrix, the levels of `0→1` and `1→0` differ after one ant walks `0, 1, 2` |
| Aco.UpdateKeepsNonNegative | algos/aco.py:89-92 | with an evaporation rate between 0 and 1, a non-negative `Q` and positive tour costs, levels stay non-negative |
| Aco.UpdateSum | algos/aco.py:89-92 | total pheromone after an update is the evaporated total plus all deposits |
| Aco.ArgMin | algos/aco.py:119-120 | `np.argmin`: the first index of a least cost |
| Aco.Improve | algos/aco.py:122-124 | the best tour changes exactly when the iteration's cost is strictly below the best so far, or there is no best yet |
| Aco.NextPheromone | algos/aco.py:116-117 | the matrix after an iteration's update stays `n` by `n`; over a single city it is left unchanged |
| Aco.Iterate | algos/aco.py:114-126 | one iteration offers the cheapest ant's tour to the best, records the best cost, and replaces the pheromone by its update with this iteration's tours |
| Aco.StateAt | algos/aco.py:106-126 | after `k` iterations the levels form an `n` by `n` matrix, there is a best exactly when `k > 0`, it is a tour with its true cost, and the `k` recorded costs never rise and end at it |
| Aco.TraceIsRunningMinimum | algos/aco.py:110-126 | entry `g` of the record is the least of the iteration-best costs of iterations `0..g`, and is one of them |
| Aco.BestIsAnAntTour | algos/aco.py:119-124 | the best tour is the cheapest ant's tour of some iteration, with that ant's cost |
| Aco.PheromoneStaysNonNegative | algos/aco.py:107-117 | with an evaporation rate between 0 and 1, pheromone levels stay non-negative throughout the run |
| Aco.Solve | algos/aco.py:96-131 | `min` of no costs fails when there are no ants; a start city cannot be drawn when there are no cities; otherwise one recorded cost per iteration, non-increasing, and the best is a tour whose true cost is the last recorded one |
| Aco.NoCitiesFailsOnStart | algos/aco.py:59 | with no cities, one iteration and one ant, the inputs are admissible and the run fails on the start-city draw `randint(0, 0)` |
| Aco.SolveIsBestOfAllAnts | algos/aco.py:114-131 | the reported cost is at most the cost of every ant in every iteration, and is the iteration best of some iteration |

## Left out

- Printing, plotting and the command-line front end: I/O with no effect on results.
- Floating point is not modelled. Fitness, rates, temperatures and pheromone are exact reals, so `1.0 / (1.0 / c) == c` holds exactly. Distances are integers.
- `inf` and `nan` are not modelled.
- Ssga.Solve and SsgaHw1.Solve: over a single city every tour costs 0, and numpy turns `1.0 / 0` into an infinite fitness with a warning. The model does not compute that value. It returns its outcome directly: row 0, the tour `[0]`, cost `math.ceil(1.0 / inf) == 0`, and 0.0 for every generation.
- Ssga.SolveReport, Ssga.SolveSucceeds, Ssga.OddSingleGenerationFails, SsgaHw1.SolveReport, SsgaHw1.SolveRunsFinish, SsgaHw1.LeastCostNeverRisesHere, SsgaHw1.SolveSucceeds and SsgaHw1.ShrunkSingleGenerationFails are about the generation loop, which the model builds only for two cities or more (fitness is the reciprocal of a positive cost). For fewer cities, the contracts of the two `Solve` functions state the whole outcome.
- `np.exp` is a function parameter. `SimAnn.TemperatureStarts`, `SimAnn.TemperatureBetween` and `SimAnn.TemperatureInIteration` assume only that it is 1 at 0, and positive and at most 1 on non-positive arguments.
- SimAnn.Iterate: the Metropolis comparison `exp(-delta / T) > rand()` enters as a drawn boolean, not as a computation. The model therefore does not cover a temperature of zero, where Python divides by zero.
- Aco.ConstructPath: the weighted choice among unvisited cities enters as a drawn index into the unvisited list. The probabilities built from pheromone, heuristic, `alpha` and `beta` (algos/aco.py:63-67) only weight that draw, and are not modelled. So the heuristic matrix is modelled but not consumed, and probabilities that sum to zero or `nan` are not modelled.
- Aco.NextPheromone: with a single city every tour costs 0, and `Q / 0` makes the levels infinite. The model leaves the matrix unchanged instead. Pheromone does not influence the modelled path choice, so paths, costs and the reported result are the same.
- Aco.Solve: with zero iterations the source returns `(inf, None)`; the model returns `NoBest` and an empty record.
- The random initial permutations and shuffle are input parameters, stated to be permutations. The model does not describe their distribution.
- `argsort` tie order: `Genetic.RankDescending` puts the later index first among equal scores (a stable ascending sort, reversed). numpy's default sort does not fix the tie order, so other tie orders are possible in the source.
- `algos/ssga.py:152` reads `args.mutation_rate`. Whether the command-line front end supplies that name is outside this model, which takes the value as `mutationSeed`.
- Dead code is not modelled: the `main` in algos/sim_ann.py lines 87-106, and the commented-out code in algos/aco.py lines 133-153.
- `hw1/utils` (data loading, plotting, printing) and both `main.py` files are not part of this model.
- Population sizes in `hw1/algos/ssga.py` follow the code. The configured `population_size` is used for every generation, so a population of 50 becomes 49 and then stays 49. It does not shrink further (50, 49, 48, ...), and `SsgaHw1.PopulationSizes` states this.

## Findings

| source | as written | input that shows it | evidently intended | confidence | as-written member | corrected member |
|---|---|---|---|---|---|---|
| algos/ssga.py:173-175 | the best index is taken from the fitness of the last evaluated population, but read from the population that replaced it, which has `P - 1` rows when `P` is odd | `P = 3`, one generation, four cities on a unit square, the cheapest tour in row 2 of the initial population: `population[2]` is out of range, an `IndexError` | return the cheapest tour of the evaluated population, whose cost is the returned distance | not executed | Ssga.OddSingleGenerationLosesTour | Ssga.SolveCorrected |
| hw1/algos/ssga.py:165-167 | the same index mismatch; the replaced population has `P - Shortfall(P)` rows, fewer than `P` unless `P` is a multiple of 4 | `P = 5`, one generation, the same square, the cheapest tour in row 4: the replaced population has 4 rows, so `population[4]` raises `IndexError` | return the cheapest tour of the evaluated population | not executed | SsgaHw1.FiveRowsLoseTour | SsgaHw1.SolveCorrected |
