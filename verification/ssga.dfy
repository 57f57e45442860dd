/** The steady-state genetic algorithm of `algos/ssga.py`: every generation
    keeps `population_size // 2` parents, of which the
    `max(1, (population_size // 2) // percent_reduction)` fittest are elites
    and the rest are drawn at random, and breeds `population_size // 2`
    children from them. */
module Ssga {
  import opened Numeric
  import opened Tours
  import opened Genetic
  import opened Outcome
  import opened SteadyState

  /** The values `ssga` reads from its arguments. */
  datatype Config = Config(generations: int, populationSize: int, mutationSeed: real,
                           percentReduction: int)

  /** `max(1, num_parents // percent_reduction)`, with Python's floor
      division. */
  function EliteCount(numParents: int, percentReduction: int): (e: int)
    requires percentReduction != 0
    ensures e >= 1
  {
    var q := FloorDiv(numParents, percentReduction);
    if q > 1 then q else 1
  }

  /** There is at least one elite and never more elites than parents; a
      negative divisor leaves exactly one, a positive one the integer
      quotient when that is at least one. */
  lemma EliteCountFits(numParents: int, percentReduction: int)
    requires percentReduction != 0
    ensures numParents >= 1 ==> 1 <= EliteCount(numParents, percentReduction) <= numParents
    ensures numParents >= 0 && percentReduction < 0 ==> EliteCount(numParents, percentReduction) == 1
    ensures numParents >= 0 && percentReduction > 0 ==>
              EliteCount(numParents, percentReduction)
                == if numParents / percentReduction > 1 then numParents / percentReduction else 1
  {
    var q := FloorDiv(numParents, percentReduction);
    var x := (numParents as real) / (percentReduction as real);
    if numParents >= 0 && percentReduction > 0 {
      FloorDivNonNegative(numParents, percentReduction);
      assert q <= numParents;
    }
    if numParents >= 0 && percentReduction < 0 {
      assert x <= 0.0;
    }
  }

  /** The loop runs at least once, there are at least two rows (so at least
      one parent) and the divisor is not zero. */
  predicate Runnable(cfg: Config) {
    cfg.generations >= 1 && cfg.populationSize >= 2 && cfg.percentReduction != 0
  }

  /** The parent selection and sizes `ssga` uses in every generation. */
  function PlanOf(cfg: Config): (plan: Plan)
    requires Runnable(cfg)
    ensures Feasible(plan) && plan.sel.elites >= 1
    ensures plan.initialSize == cfg.populationSize && plan.generations == cfg.generations
    ensures ParentCount(plan.sel) == plan.children == cfg.populationSize / 2
    ensures plan.sel.elites == EliteCount(cfg.populationSize / 2, cfg.percentReduction)
  {
    var half := cfg.populationSize / 2;
    var e := EliteCount(half, cfg.percentReduction);
    EliteCountFits(half, cfg.percentReduction);
    Plan(cfg.populationSize, Selection(e, half - e), half, cfg.generations, cfg.mutationSeed)
  }

  /** The initial population has `population_size` rows; every later one has
      parents plus children, which loses a row when the size is odd. */
  lemma PopulationSizes(cfg: Config, g: nat)
    requires Runnable(cfg)
    ensures SizeAt(PlanOf(cfg), g)
              == if g == 0 then cfg.populationSize else cfg.populationSize - cfg.populationSize % 2
  {
    var plan := PlanOf(cfg);
    assert ParentCount(plan.sel) + plan.children == 2 * (cfg.populationSize / 2);
  }

  /** What the caller supplies: a distance matrix, one random permutation
      per row of the initial population, and, for a run over two or more
      cities that gets going, valid draws for every generation. */
  predicate Given(d: Matrix, cfg: Config, initial: seq<Tour>, draws: seq<GenerationDraws>) {
    && IsDistanceMatrix(d)
    && |initial| == (if cfg.populationSize > 0 then cfg.populationSize else 0)
    && AllPermutations(initial, |d|)
    && (Runnable(cfg) && |d| >= 2 ==> ValidRunDraws(PlanOf(cfg), |d|, draws))
  }

  /** The inputs of the generation loop. */
  function RunOf(d: Matrix, cfg: Config, initial: seq<Tour>, draws: seq<GenerationDraws>): (run: Run)
    requires Given(d, cfg, initial, draws) && Runnable(cfg) && |d| >= 2
    ensures run.d == d && run.initial == initial && run.draws == draws
    ensures run.plan == PlanOf(cfg) && run.plan.generations == cfg.generations
  {
    Inputs(d, PlanOf(cfg), initial, draws)
  }

  /** `ssga`: the exceptions Python raises on degenerate arguments, and
      otherwise the generation loop followed by the returned pair. With no
      cities the first fitness evaluation fails before anything else is
      looked at; with one city every row is the tour `[0]` and the run
      returns it at cost 0. */
  function Solve(d: Matrix, cfg: Config, initial: seq<Tour>, draws: seq<GenerationDraws>): (r: Result<Report>)
    requires Given(d, cfg, initial, draws)
    ensures cfg.generations < 1 ==> r == Failure(NoGenerations)
    ensures cfg.generations >= 1 && cfg.populationSize < 1 ==> r == Failure(EmptyPopulation)
    ensures cfg.generations >= 1 && cfg.populationSize >= 1 && |d| == 0 ==> r == Failure(NoCities)
    ensures cfg.generations >= 1 && cfg.populationSize >= 1 && |d| >= 1 && cfg.percentReduction == 0 ==>
              r == Failure(DivisionByZero)
    ensures cfg.generations >= 1 && cfg.populationSize == 1 && |d| >= 1 && cfg.percentReduction != 0 ==>
              r == Failure(NegativeSampleSize)
    ensures Runnable(cfg) && |d| == 1 ==>
              && r.Success? && r.value.tour == initial[0] && r.value.cost == 0
              && |r.value.trace| == cfg.generations
              && forall g :: 0 <= g < |r.value.trace| ==> r.value.trace[g] == 0.0
    ensures Runnable(cfg) && |d| >= 2 ==> r.Success? || r == Failure(IndexOutOfRange)
  {
    if cfg.generations < 1 then Failure(NoGenerations)
    else if cfg.populationSize < 1 then Failure(EmptyPopulation)
    else if |d| == 0 then Failure(NoCities)
    else if cfg.percentReduction == 0 then Failure(DivisionByZero)
    else if cfg.populationSize == 1 then Failure(NegativeSampleSize)
    else if |d| == 1 then
      SingleCity(d);
      Success(OneCityReport(cfg.generations))
    else Finish(RunOf(d, cfg, initial, draws))
  }

  /** A successful run reports the least tour cost of the last evaluated
      population as a whole number, a permutation of the cities as its tour,
      and one best distance per generation, ending at the reported cost. */
  lemma SolveReport(d: Matrix, cfg: Config, initial: seq<Tour>, draws: seq<GenerationDraws>)
    requires Given(d, cfg, initial, draws) && Runnable(cfg) && |d| >= 2
    ensures var run := RunOf(d, cfg, initial, draws);
            var r := Solve(d, cfg, initial, draws);
            r.Success? ==>
              && r.value.cost == CostAt(run, run.plan.generations - 1)
              && IsPermutation(r.value.tour, |run.d|)
              && |r.value.trace| == run.plan.generations
              && r.value.trace[run.plan.generations - 1] == r.value.cost as real
  {
    var run := RunOf(d, cfg, initial, draws);
    FinishReport(run, run.plan.generations);
  }

  /** The best distances a successful run records never rise: the fittest
      row is always kept as an elite. */
  lemma SolveTraceNonIncreasing(d: Matrix, cfg: Config, initial: seq<Tour>, draws: seq<GenerationDraws>)
    requires Given(d, cfg, initial, draws)
    ensures Solve(d, cfg, initial, draws).Success? ==>
              var trace := Solve(d, cfg, initial, draws).value.trace;
              forall g, h :: 0 <= g <= h < |trace| ==> trace[h] <= trace[g]
  {
    if Runnable(cfg) && |d| >= 2 {
      FinishTraceNonIncreasing(RunOf(d, cfg, initial, draws));
    }
  }

  /** Exactly when a runnable configuration succeeds: an even population
      size, more than one generation, or a best row of the initial
      population that is not its last row. */
  lemma SolveSucceeds(d: Matrix, cfg: Config, initial: seq<Tour>, draws: seq<GenerationDraws>)
    requires Given(d, cfg, initial, draws) && Runnable(cfg) && |d| >= 2
    ensures var ok := Solve(d, cfg, initial, draws).Success?;
            ok <==> (|| cfg.populationSize % 2 == 0 || cfg.generations >= 2
                     || BestIndex(RunOf(d, cfg, initial, draws)) < cfg.populationSize - 1)
  {
    var run := RunOf(d, cfg, initial, draws);
    PopulationSizes(cfg, cfg.generations - 1);
    PopulationSizes(cfg, cfg.generations);
  }

  /** `ssga` as evidently intended: the returned tour is read from the
      population its index was computed on. */
  function SolveCorrected(d: Matrix, cfg: Config, initial: seq<Tour>, draws: seq<GenerationDraws>): (r: Result<Report>)
    requires Given(d, cfg, initial, draws)
    ensures r.Success? <==> Runnable(cfg) && |d| >= 1
    ensures r.Success? ==>
              && IsPermutation(r.value.tour, |d|) && IndexesCities(d, r.value.tour)
              && r.value.cost == CyclicCost(d, r.value.tour)
    ensures r.Success? && |d| >= 2 ==>
              var run := RunOf(d, cfg, initial, draws);
              r.value.cost == CostAt(run, run.plan.generations - 1)
  {
    if cfg.generations < 1 then Failure(NoGenerations)
    else if cfg.populationSize < 1 then Failure(EmptyPopulation)
    else if |d| == 0 then Failure(NoCities)
    else if cfg.percentReduction == 0 then Failure(DivisionByZero)
    else if cfg.populationSize == 1 then Failure(NegativeSampleSize)
    else if |d| == 1 then
      SingleCity(d);
      Success(OneCityReport(cfg.generations))
    else Success(FinishCorrected(RunOf(d, cfg, initial, draws)))
  }

  /** Where the run as written succeeds, it reports the same cost and trace
      as the corrected one; it differs only in the tour. */
  lemma SolveAgreesWithCorrected(d: Matrix, cfg: Config, initial: seq<Tour>, draws: seq<GenerationDraws>)
    requires Given(d, cfg, initial, draws)
    ensures Solve(d, cfg, initial, draws).Success? ==>
              && SolveCorrected(d, cfg, initial, draws).Success?
              && Solve(d, cfg, initial, draws).value.cost == SolveCorrected(d, cfg, initial, draws).value.cost
              && Solve(d, cfg, initial, draws).value.trace == SolveCorrected(d, cfg, initial, draws).value.trace
  {
  }

  // ---------------------------------------------------------------------
  // A run that loses its tour
  // ---------------------------------------------------------------------

  /** Four cities on a square of side 1 with diagonals 2. */
  const SquareCities: Matrix := [[0, 1, 2, 1], [1, 0, 1, 2], [2, 1, 0, 1], [1, 2, 1, 0]]

  /** The tour that crosses both diagonals, of cost 6. */
  const CrossedSquare: Tour := [0, 2, 1, 3]

  /** The tour around the square, of cost 4: the only shortest one. */
  const AroundSquare: Tour := [0, 1, 2, 3]

  /** Three rows, the last one the only shortest tour. */
  const LastRowBest: seq<Tour> := [CrossedSquare, CrossedSquare, AroundSquare]

  /** One generation over three rows: one elite, no random parent, one
      child. */
  const OddSingleGeneration := Config(1, 3, 0.5, 4)

  const OneGenerationDraws: seq<GenerationDraws> :=
    [GenerationDraws([], [CrossoverDraw(0, 0, 0, 0)], [MutationDraw(0.5, 0, 0)])]

  lemma SquareCitiesIsDistanceMatrix()
    ensures IsDistanceMatrix(SquareCities) && |SquareCities| == 4
  {
    var d := SquareCities;
    assert IsSquare(d, 4);
    forall i, j | 0 <= i < 4 && 0 <= j < 4 ensures d[i][j] == d[j][i] && (i != j ==> d[i][j] > 0) {
      assert d[0] == [0, 1, 2, 1] && d[1] == [1, 0, 1, 2] && d[2] == [2, 1, 0, 1] && d[3] == [1, 2, 1, 0];
    }
  }

  /** Both tours visit each of the four cities once; the crossed one costs
      6 and the one around the square 4. */
  lemma SquareTours()
    ensures IsPermutation(CrossedSquare, 4) && IsPermutation(AroundSquare, 4)
    ensures IndexesCities(SquareCities, CrossedSquare) && IndexesCities(SquareCities, AroundSquare)
    ensures CyclicCost(SquareCities, CrossedSquare) == 6
    ensures CyclicCost(SquareCities, AroundSquare) == 4
  {
    CrossedSquareIsTour();
    SquareIsTour();
    SquareTourCosts();
  }

  lemma CrossedSquareIsTour()
    ensures IsPermutation(CrossedSquare, 4)
  {
    var t := CrossedSquare;
    assert forall x :: x in t <==> 0 <= x < 4;
    PermutationFromFacts(t, 4);
  }

  lemma SquareIsTour()
    ensures IsPermutation(AroundSquare, 4)
  {
    var t := AroundSquare;
    assert forall x :: x in t <==> 0 <= x < 4;
    PermutationFromFacts(t, 4);
  }

  lemma SquareTourCosts()
    ensures IndexesCities(SquareCities, CrossedSquare) && IndexesCities(SquareCities, AroundSquare)
    ensures CyclicCost(SquareCities, CrossedSquare) == 6
    ensures CyclicCost(SquareCities, AroundSquare) == 4
  {
    var d := SquareCities;
    assert d[0] == [0, 1, 2, 1] && d[1] == [1, 0, 1, 2] && d[2] == [2, 1, 0, 1] && d[3] == [1, 2, 1, 0];
    assert EdgeSum(d, CrossedSquare, 0, 4) == 2 + 1 + 2 + 1;
    assert EdgeSum(d, AroundSquare, 0, 4) == 1 + 1 + 1 + 1;
  }

  /** One elite (`max(1, 1 // 4)`), no random parent, one child. */
  lemma OddSingleGenerationPlan()
    ensures Runnable(OddSingleGeneration)
    ensures PlanOf(OddSingleGeneration) == Plan(3, Selection(1, 0), 1, 1, 0.5)
  {
    FloorDivNonNegative(1, 4);
  }

  lemma OneGenerationDrawsValid()
    ensures ValidRunDraws(Plan(3, Selection(1, 0), 1, 1, 0.5), 4, OneGenerationDraws)
  {
    var dr := OneGenerationDraws[0];
    assert DistinctPicks(dr.picks, 3, 0);
    assert ValidCrossoverDraws(dr.crossovers, 1, 4);
    assert ValidMutationDraws(dr.mutations, 4);
  }

  lemma LastRowBestIsGiven()
    ensures Given(SquareCities, OddSingleGeneration, LastRowBest, OneGenerationDraws)
  {
    SquareCitiesIsDistanceMatrix();
    OddSingleGenerationPlan();
    OneGenerationDrawsValid();
    SquareTours();
  }

  /** When every row but the last costs `hi` and the last one costs less,
      the fittest row is the last one and the least cost is its cost. */
  lemma LastRowFittest(d: Matrix, pop: seq<Tour>, hi: int, lo: int)
    requires ValidPopulation(d, pop) && |pop| >= 1
    requires forall k :: 0 <= k < |pop| ==> IndexesCities(d, pop[k])
    requires forall k :: 0 <= k < |pop| - 1 ==> CyclicCost(d, pop[k]) == hi
    requires 0 < lo < hi && CyclicCost(d, pop[|pop| - 1]) == lo
    ensures ArgMax(EvaluateFitness(d, pop)) == |pop| - 1
    ensures LeastCost(d, pop) == lo
  {
    LastRowFitter(d, pop, hi, lo);
    var m := LeastCost(d, pop);
    var k :| 0 <= k < |pop| && m == CyclicCost(d, pop[k]);
    assert m <= CyclicCost(d, pop[|pop| - 1]);
  }

  lemma LastRowFitter(d: Matrix, pop: seq<Tour>, hi: int, lo: int)
    requires ValidPopulation(d, pop) && |pop| >= 1
    requires forall k :: 0 <= k < |pop| ==> IndexesCities(d, pop[k])
    requires forall k :: 0 <= k < |pop| - 1 ==> CyclicCost(d, pop[k]) == hi
    requires 0 < lo < hi && CyclicCost(d, pop[|pop| - 1]) == lo
    ensures ArgMax(EvaluateFitness(d, pop)) == |pop| - 1
  {
    var fit := EvaluateFitness(d, pop);
    var last := |pop| - 1;
    var top := 1.0 / (lo as real);
    ReciprocalAntitone(lo as real, hi as real);
    assert fit[last] == top;
    forall k | 0 <= k < last ensures fit[k] < top {
      assert fit[k] == 1.0 / (hi as real);
    }
  }

  /** On a one-generation run from these rows, the best index is 2 and the
      least cost of the evaluated population is 4. */
  lemma LastRowBestRun(run: Run)
    requires run.d == SquareCities && run.initial == LastRowBest && run.plan.generations == 1
    ensures BestIndex(run) == 2
    ensures CostAt(run, 0) == 4
  {
    SquareTours();
    assert PopulationAt(run, 0) == LastRowBest;
    LastRowFittest(SquareCities, LastRowBest, 6, 4);
  }

  /** With an odd population and a single generation, a best row that is
      the last row of the initial population lies outside the population
      left after the loop: the run as written fails, while the corrected run
      returns a tour of the least initial cost. */
  lemma OddSingleGenerationFails(d: Matrix, cfg: Config, initial: seq<Tour>, draws: seq<GenerationDraws>)
    requires Given(d, cfg, initial, draws) && Runnable(cfg) && |d| >= 2
    requires cfg.populationSize % 2 == 1 && cfg.generations == 1
    requires BestIndex(RunOf(d, cfg, initial, draws)) == cfg.populationSize - 1
    ensures Solve(d, cfg, initial, draws) == Failure(IndexOutOfRange)
    ensures SolveCorrected(d, cfg, initial, draws).Success?
    ensures SolveCorrected(d, cfg, initial, draws).value.cost == CostAt(RunOf(d, cfg, initial, draws), 0)
  {
    SolveSucceeds(d, cfg, initial, draws);
  }

  /** The concrete case: three rows over four cities whose only shortest
      tour is the last row. The run as written fails, while the corrected
      run returns that row at cost 4. */
  lemma LastRowBestSetting(d: Matrix, cfg: Config, initial: seq<Tour>, draws: seq<GenerationDraws>)
    requires d == SquareCities && cfg == OddSingleGeneration
    requires initial == LastRowBest && draws == OneGenerationDraws
    ensures Given(d, cfg, initial, draws) && Runnable(cfg) && |d| >= 2
    ensures cfg.populationSize % 2 == 1 && cfg.generations == 1
    ensures BestIndex(RunOf(d, cfg, initial, draws)) == cfg.populationSize - 1
    ensures CostAt(RunOf(d, cfg, initial, draws), 0) == 4
  {
    LastRowBestIsGiven();
    OddSingleGenerationPlan();
    LastRowBestRun(RunOf(d, cfg, initial, draws));
  }

  lemma OddSingleGenerationLosesTour(d: Matrix, cfg: Config, initial: seq<Tour>, draws: seq<GenerationDraws>)
    requires d == SquareCities && cfg == OddSingleGeneration
    requires initial == LastRowBest && draws == OneGenerationDraws
    ensures Given(d, cfg, initial, draws)
    ensures Solve(d, cfg, initial, draws) == Failure(IndexOutOfRange)
    ensures SolveCorrected(d, cfg, initial, draws).Success?
    ensures SolveCorrected(d, cfg, initial, draws).value.cost == 4
  {
    LastRowBestSetting(d, cfg, initial, draws);
    OddSingleGenerationFails(d, cfg, initial, draws);
  }
}
