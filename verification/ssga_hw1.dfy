/** The steady-state genetic algorithm of `hw1/algos/ssga.py`: every
    generation keeps `population_size // 2` parents, half of them (rounded
    down) the fittest rows and as many drawn at random, breeds
    `population_size // 2` children from them, and mutates them at a rate
    that starts at 0.1. */
module SsgaHw1 {
  import opened Tours
  import opened Genetic
  import opened Outcome
  import opened SteadyState
  import Ssga

  /** The values `ssga` reads from its arguments. */
  datatype Config = Config(generations: int, populationSize: int)

  /** The seed of `adaptive_mutation_rate`. */
  const MutationSeed: real := 0.1

  /** `num_parents // 2` elites and as many random parents, for
      `num_parents = population_size // 2`. */
  function SelectionOf(populationSize: int): Selection
    requires populationSize >= 0
  {
    Selection((populationSize / 2) / 2, (populationSize / 2) / 2)
  }

  /** The loop runs at least once and every population keeps at least one
      elite and one random parent. */
  predicate Runnable(cfg: Config) {
    cfg.generations >= 1 && cfg.populationSize >= 4
  }

  /** The parent selection and sizes `ssga` uses in every generation. */
  function PlanOf(cfg: Config): (plan: Plan)
    requires Runnable(cfg)
    ensures Feasible(plan) && plan.sel.elites >= 1 && plan.sel.elites == plan.sel.randoms
    ensures plan.initialSize == cfg.populationSize && plan.generations == cfg.generations
    ensures plan.children == cfg.populationSize / 2
    ensures ParentCount(plan.sel) <= plan.children
  {
    Plan(cfg.populationSize, SelectionOf(cfg.populationSize), cfg.populationSize / 2,
         cfg.generations, MutationSeed)
  }

  /** How many rows the first replacement loses: the parents are two equal
      halves of `population_size // 2`, so an odd parent count and an odd
      population size each cost a row. */
  function Shortfall(populationSize: int): (s: int)
    requires populationSize >= 0
    ensures 0 <= s <= 2
    ensures s == 0 <==> populationSize % 4 == 0
  {
    if populationSize % 4 == 0 then 0 else if populationSize % 4 == 3 then 2 else 1
  }

  /** The initial population has `population_size` rows and every later one
      the same smaller number: the size settles after the first
      replacement and is the configured one only for a multiple of four. */
  lemma PopulationSizes(cfg: Config, g: nat)
    requires Runnable(cfg)
    ensures SizeAt(PlanOf(cfg), g)
              == if g == 0 then cfg.populationSize else cfg.populationSize - Shortfall(cfg.populationSize)
    ensures g >= 1 ==> SizeAt(PlanOf(cfg), g) == SizeAt(PlanOf(cfg), 1)
  {
    var p := cfg.populationSize;
    var a, r := p / 4, p % 4;
    assert p == 4 * a + r;
    assert p / 2 == 2 * a + r / 2;
    assert (p / 2) / 2 == a;
  }

  /** Fifty rows become forty-nine after the first generation and stay
      forty-nine. */
  lemma FiftyRowsKeepFortyNine(cfg: Config, g: nat)
    requires Runnable(cfg) && cfg.populationSize == 50 && g >= 1
    ensures SizeAt(PlanOf(cfg), g) == 49
  {
    PopulationSizes(cfg, g);
  }

  /** What the caller supplies: a distance matrix, one random permutation
      per row of the initial population, and, for a run over two or more
      cities that gets going, valid draws for every generation. */
  predicate Given(d: Matrix, cfg: Config, initial: seq<Tour>, draws: seq<GenerationDraws>) {
    && IsDistanceMatrix(d)
    && |initial| == (if cfg.populationSize > 0 then cfg.populationSize else 0)
    && AllPermutations(initial, |d|)
    && (Runnable(cfg) && |d| >= 2 ==> ValidRunDraws(PlanOf(cfg), |d|, draws))
  }

  /** The inputs of the generation loop. */
  function RunOf(d: Matrix, cfg: Config, initial: seq<Tour>, draws: seq<GenerationDraws>): (run: Run)
    requires Given(d, cfg, initial, draws) && Runnable(cfg) && |d| >= 2
    ensures run.d == d && run.initial == initial && run.draws == draws
    ensures run.plan == PlanOf(cfg) && run.plan.generations == cfg.generations
  {
    Inputs(d, PlanOf(cfg), initial, draws)
  }

  /** `ssga`: the exceptions Python raises on degenerate arguments, and
      otherwise the generation loop followed by the returned pair.

      With one row there are no parents and no children, so the first
      replacement leaves an empty population: indexing it after a single
      generation fails, and a second generation takes `argmax` of no
      fitness values. With two or three rows there are no parents but one
      child, whose parent draw `randint(0, 0)` fails. With no cities the
      first fitness evaluation fails before any of this; with one city every
      row is the tour `[0]` and a runnable configuration returns it at
      cost 0. */
  function Solve(d: Matrix, cfg: Config, initial: seq<Tour>, draws: seq<GenerationDraws>): (r: Result<Report>)
    requires Given(d, cfg, initial, draws)
    ensures cfg.generations < 1 ==> r == Failure(NoGenerations)
    ensures cfg.generations >= 1 && cfg.populationSize < 1 ==> r == Failure(EmptyPopulation)
    ensures cfg.generations >= 1 && cfg.populationSize >= 1 && |d| == 0 ==> r == Failure(NoCities)
    ensures cfg.generations == 1 && cfg.populationSize == 1 && |d| >= 1 ==> r == Failure(IndexOutOfRange)
    ensures cfg.generations >= 2 && cfg.populationSize == 1 && |d| >= 1 ==> r == Failure(EmptyArgMax)
    ensures cfg.generations >= 1 && 2 <= cfg.populationSize <= 3 && |d| >= 1 ==> r == Failure(EmptyParentRange)
    ensures Runnable(cfg) && |d| == 1 ==>
              && r.Success? && r.value.tour == initial[0] && r.value.cost == 0
              && |r.value.trace| == cfg.generations
              && forall g :: 0 <= g < |r.value.trace| ==> r.value.trace[g] == 0.0
    ensures Runnable(cfg) && |d| >= 2 ==> r.Success? || r == Failure(IndexOutOfRange)
  {
    if cfg.generations < 1 then Failure(NoGenerations)
    else if cfg.populationSize < 1 then Failure(EmptyPopulation)
    else if |d| == 0 then Failure(NoCities)
    else if cfg.populationSize == 1 then
      (if cfg.generations == 1 then Failure(IndexOutOfRange) else Failure(EmptyArgMax))
    else if cfg.populationSize < 4 then Failure(EmptyParentRange)
    else if |d| == 1 then
      SingleCity(d);
      Success(OneCityReport(cfg.generations))
    else
      Finish(RunOf(d, cfg, initial, draws))
  }

  /** A successful run reports the least tour cost of the last evaluated
      population as a whole number, a permutation of the cities as its tour,
      and one best distance per generation, ending at the reported cost. */
  lemma SolveReport(d: Matrix, cfg: Config, initial: seq<Tour>, draws: seq<GenerationDraws>)
    requires Given(d, cfg, initial, draws) && Runnable(cfg) && |d| >= 2
    ensures var run := RunOf(d, cfg, initial, draws);
            var r := Solve(d, cfg, initial, draws);
            r.Success? ==>
              && r.value.cost == CostAt(run, run.plan.generations - 1)
              && IsPermutation(r.value.tour, |run.d|)
              && |r.value.trace| == run.plan.generations
              && r.value.trace[run.plan.generations - 1] == r.value.cost as real
  {
    var run := RunOf(d, cfg, initial, draws);
    SolveRunsFinish(d, cfg, initial, draws);
    FinishReport(run, run.plan.generations);
  }

  /** A runnable configuration passes every argument check and runs the
      generation loop to its end. */
  lemma SolveRunsFinish(d: Matrix, cfg: Config, initial: seq<Tour>, draws: seq<GenerationDraws>)
    requires Given(d, cfg, initial, draws) && Runnable(cfg) && |d| >= 2
    ensures Solve(d, cfg, initial, draws) == Finish(RunOf(d, cfg, initial, draws))
  {
  }

  /** The best distances a successful run records never rise: the fittest
      row is always kept as an elite. */
  lemma SolveTraceNonIncreasing(d: Matrix, cfg: Config, initial: seq<Tour>, draws: seq<GenerationDraws>)
    requires Given(d, cfg, initial, draws)
    ensures Solve(d, cfg, initial, draws).Success? ==>
              var trace := Solve(d, cfg, initial, draws).value.trace;
              forall g, h :: 0 <= g <= h < |trace| ==> trace[h] <= trace[g]
  {
    if Runnable(cfg) && |d| >= 2 {
      SolveRunsFinish(d, cfg, initial, draws);
      FinishTraceNonIncreasing(RunOf(d, cfg, initial, draws));
    }
  }

  /** The least cost of the evaluated population never rises from one
      generation to a later one: the fittest row is always kept as an
      elite. */
  lemma LeastCostNeverRisesHere(d: Matrix, cfg: Config, initial: seq<Tour>, draws: seq<GenerationDraws>,
                                g: nat, h: nat)
    requires Given(d, cfg, initial, draws) && Runnable(cfg) && |d| >= 2
    requires g <= h <= cfg.generations
    ensures var run := RunOf(d, cfg, initial, draws);
            CostAt(run, h) <= CostAt(run, g)
  {
    LeastCostNeverRises(RunOf(d, cfg, initial, draws), g, h);
  }

  /** Exactly when a runnable configuration succeeds: a population size
      that is a multiple of four, more than one generation, or a best row
      of the initial population that survives the first replacement's
      shrinking. */
  lemma SolveSucceeds(d: Matrix, cfg: Config, initial: seq<Tour>, draws: seq<GenerationDraws>)
    requires Given(d, cfg, initial, draws) && Runnable(cfg) && |d| >= 2
    ensures var ok := Solve(d, cfg, initial, draws).Success?;
            ok <==> (|| cfg.populationSize % 4 == 0 || cfg.generations >= 2
                     || BestIndex(RunOf(d, cfg, initial, draws))
                          < cfg.populationSize - Shortfall(cfg.populationSize))
  {
    PopulationSizes(cfg, cfg.generations - 1);
    PopulationSizes(cfg, cfg.generations);
  }

  /** `ssga` as evidently intended: the returned tour is read from the
      population its index was computed on. A single row and a single
      generation then return that row. */
  function SolveCorrected(d: Matrix, cfg: Config, initial: seq<Tour>, draws: seq<GenerationDraws>): (r: Result<Report>)
    requires Given(d, cfg, initial, draws)
    ensures r.Success? <==> |d| >= 1 && (Runnable(cfg) || (cfg.generations == 1 && cfg.populationSize == 1))
    ensures r.Success? ==>
              && IsPermutation(r.value.tour, |d|) && IndexesCities(d, r.value.tour)
              && r.value.cost == CyclicCost(d, r.value.tour)
    ensures Runnable(cfg) && |d| >= 2 && r.Success? ==>
              var run := RunOf(d, cfg, initial, draws);
              r.value.cost == CostAt(run, run.plan.generations - 1)
  {
    if cfg.generations < 1 then Failure(NoGenerations)
    else if cfg.populationSize < 1 then Failure(EmptyPopulation)
    else if |d| == 0 then Failure(NoCities)
    else if cfg.populationSize == 1 then
      if cfg.generations == 1 then
        PermutationFacts(initial[0], |d|);
        var cost := CyclicCost(d, initial[0]);
        Success(Report(cost, initial[0], [cost as real]))
      else Failure(EmptyArgMax)
    else if cfg.populationSize < 4 then Failure(EmptyParentRange)
    else if |d| == 1 then
      SingleCity(d);
      Success(OneCityReport(cfg.generations))
    else
      Success(FinishCorrected(RunOf(d, cfg, initial, draws)))
  }

  /** A population size that is not a multiple of four and a single
      generation, with a best row that is the last row of the initial
      population: the run as written fails, while the corrected run returns
      a tour of the least initial cost. */
  lemma ShrunkSingleGenerationFails(d: Matrix, cfg: Config, initial: seq<Tour>, draws: seq<GenerationDraws>)
    requires Given(d, cfg, initial, draws) && Runnable(cfg) && |d| >= 2
    requires cfg.populationSize % 4 != 0 && cfg.generations == 1
    requires BestIndex(RunOf(d, cfg, initial, draws)) == cfg.populationSize - 1
    ensures Solve(d, cfg, initial, draws) == Failure(IndexOutOfRange)
    ensures SolveCorrected(d, cfg, initial, draws).Success?
    ensures SolveCorrected(d, cfg, initial, draws).value.cost == CostAt(RunOf(d, cfg, initial, draws), 0)
  {
    SolveSucceeds(d, cfg, initial, draws);
  }

  // ---------------------------------------------------------------------
  // A run that loses its tour
  // ---------------------------------------------------------------------

  /** Five rows over the four cities of a square, the last one the only
      shortest tour. */
  const FifthRowBest: seq<Tour> :=
    [Ssga.CrossedSquare, Ssga.CrossedSquare, Ssga.CrossedSquare, Ssga.CrossedSquare, Ssga.AroundSquare]

  /** One generation over five rows: one elite, one random parent, two
      children; four rows survive the replacement. */
  const FiveRowsOneGeneration := Config(1, 5)

  const FiveRowDraws: seq<GenerationDraws> :=
    [GenerationDraws([0], [CrossoverDraw(0, 1, 0, 0), CrossoverDraw(1, 0, 0, 0)],
                     [MutationDraw(0.5, 0, 0), MutationDraw(0.5, 0, 0)])]

  lemma FiveRowsPlan()
    ensures Runnable(FiveRowsOneGeneration)
    ensures PlanOf(FiveRowsOneGeneration) == Plan(5, Selection(1, 1), 2, 1, MutationSeed)
  {
  }

  lemma FiveRowDrawsValid()
    ensures ValidRunDraws(Plan(5, Selection(1, 1), 2, 1, MutationSeed), 4, FiveRowDraws)
  {
    var dr := FiveRowDraws[0];
    assert DistinctPicks(dr.picks, 5, 1);
    assert ValidCrossoverDraws(dr.crossovers, 2, 4);
    assert ValidMutationDraws(dr.mutations, 4);
  }

  lemma FifthRowBestIsGiven()
    ensures Given(Ssga.SquareCities, FiveRowsOneGeneration, FifthRowBest, FiveRowDraws)
  {
    Ssga.SquareCitiesIsDistanceMatrix();
    Ssga.SquareTours();
    FiveRowsPlan();
    FiveRowDrawsValid();
  }

  /** On a one-generation run from these rows, the best index is 4 and the
      least cost of the evaluated population is 4. */
  lemma FifthRowBestRun(run: Run)
    requires run.d == Ssga.SquareCities && run.initial == FifthRowBest && run.plan.generations == 1
    ensures BestIndex(run) == 4
    ensures CostAt(run, 0) == 4
  {
    Ssga.SquareTours();
    assert PopulationAt(run, 0) == FifthRowBest;
    Ssga.LastRowFittest(Ssga.SquareCities, FifthRowBest, 6, 4);
  }

  lemma FifthRowBestSetting(d: Matrix, cfg: Config, initial: seq<Tour>, draws: seq<GenerationDraws>)
    requires d == Ssga.SquareCities && cfg == FiveRowsOneGeneration
    requires initial == FifthRowBest && draws == FiveRowDraws
    ensures Given(d, cfg, initial, draws) && Runnable(cfg) && |d| >= 2
    ensures cfg.populationSize % 4 != 0 && cfg.generations == 1
    ensures BestIndex(RunOf(d, cfg, initial, draws)) == cfg.populationSize - 1
    ensures CostAt(RunOf(d, cfg, initial, draws), 0) == 4
  {
    FifthRowBestIsGiven();
    FiveRowsPlan();
    FifthRowBestRun(RunOf(d, cfg, initial, draws));
  }

  /** The concrete case: five rows over four cities whose only shortest
      tour is the last row. The run as written fails, while the corrected
      run returns that row at cost 4. */
  lemma FiveRowsLoseTour(d: Matrix, cfg: Config, initial: seq<Tour>, draws: seq<GenerationDraws>)
    requires d == Ssga.SquareCities && cfg == FiveRowsOneGeneration
    requires initial == FifthRowBest && draws == FiveRowDraws
    ensures Given(d, cfg, initial, draws)
    ensures Solve(d, cfg, initial, draws) == Failure(IndexOutOfRange)
    ensures SolveCorrected(d, cfg, initial, draws).Success?
    ensures SolveCorrected(d, cfg, initial, draws).value.cost == 4
  {
    FifthRowBestSetting(d, cfg, initial, draws);
    ShrunkSingleGenerationFails(d, cfg, initial, draws);
  }
}
