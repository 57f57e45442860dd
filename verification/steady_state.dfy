/** The generation loop both steady-state genetic algorithms share. Each
    generation evaluates the population, keeps some elites and some rows
    drawn at random as parents, breeds one child per configured pair, and
    replaces the population by the parents followed by the children. The two
    versions differ only in how many elites and random rows they keep and in
    which inputs make them fail; those choices live in `Ssga` and
    `SsgaHw1`. */
module SteadyState {
  import opened Numeric
  import opened Tours
  import opened Genetic
  import opened Outcome

  /** How many parents a generation keeps: the `elites` fittest rows and
      `randoms` rows drawn without replacement. */
  datatype Selection = Selection(elites: nat, randoms: nat)

  function ParentCount(sel: Selection): nat {
    sel.elites + sel.randoms
  }

  /** `select_parents`: the elites, best first, then the rows at the random
      picks. */
  function SelectParents(pop: seq<Tour>, fit: seq<real>, sel: Selection, picks: seq<int>): (parents: seq<Tour>)
    requires |fit| == |pop| && sel.elites <= |pop|
    requires DistinctPicks(picks, |pop|, sel.randoms)
    ensures |parents| == ParentCount(sel)
    ensures parents[..sel.elites] == Elites(pop, fit, sel.elites)
    ensures parents[sel.elites..] == RowsAt(pop, picks)
  {
    Elites(pop, fit, sel.elites) + RowsAt(pop, picks)
  }

  /** Every parent is a row of the population. */
  lemma ParentsAreRows(pop: seq<Tour>, fit: seq<real>, sel: Selection, picks: seq<int>)
    requires |fit| == |pop| && sel.elites <= |pop|
    requires DistinctPicks(picks, |pop|, sel.randoms)
    ensures forall i :: 0 <= i < ParentCount(sel) ==> SelectParents(pop, fit, sel, picks)[i] in pop
  {
    var parents := SelectParents(pop, fit, sel, picks);
    forall i | 0 <= i < ParentCount(sel) ensures parents[i] in pop {
      if i < sel.elites {
        EliteIsRow(pop, fit, sel.elites, i);
        assert parents[i] == parents[..sel.elites][i];
      } else {
        PickIsRow(pop, picks, sel.randoms, i - sel.elites);
        assert parents[i] == parents[sel.elites..][i - sel.elites];
      }
    }
  }

  lemma EliteIsRow(pop: seq<Tour>, fit: seq<real>, count: int, i: int)
    requires |fit| == |pop| && 0 <= i < count <= |pop|
    ensures Elites(pop, fit, count)[i] in pop
  {
    ElitesAreRanked(pop, fit, count);
    var j := RankDescending(fit)[i];
    assert Elites(pop, fit, count)[i] == pop[j];
  }

  lemma PickIsRow(pop: seq<Tour>, picks: seq<int>, count: int, i: int)
    requires DistinctPicks(picks, |pop|, count) && 0 <= i < count
    ensures RowsAt(pop, picks)[i] in pop
  {
    assert RowsAt(pop, picks)[i] == pop[picks[i]];
  }

  /** With at least one elite, the first parent is a row of highest
      fitness. */
  lemma FirstParentIsFittest(pop: seq<Tour>, fit: seq<real>, sel: Selection, picks: seq<int>)
    requires |fit| == |pop| && sel.elites <= |pop|
    requires DistinctPicks(picks, |pop|, sel.randoms)
    requires sel.elites > 0
    ensures exists k :: 0 <= k < |pop| && SelectParents(pop, fit, sel, picks)[0] == pop[k] &&
              forall j :: 0 <= j < |pop| ==> fit[j] <= fit[k]
  {
    var parents := SelectParents(pop, fit, sel, picks);
    ElitesAreRanked(pop, fit, sel.elites);
    TopOfRanking(fit, sel.elites);
    var k := RankDescending(fit)[0];
    assert parents[0] == parents[..sel.elites][0] == pop[k];
  }

  /** The draws of one generation: the random parent picks, and per child
      its crossover and its mutation draws. */
  datatype GenerationDraws = GenerationDraws(picks: seq<int>, crossovers: seq<CrossoverDraw>,
                                             mutations: seq<MutationDraw>)

  predicate ValidGenerationDraws(dr: GenerationDraws, size: int, sel: Selection, children: int, n: int) {
    && DistinctPicks(dr.picks, size, sel.randoms)
    && |dr.crossovers| == children && ValidCrossoverDraws(dr.crossovers, ParentCount(sel), n)
    && |dr.mutations| == children && ValidMutationDraws(dr.mutations, n)
  }

  /** One pass of the generation loop: the population that replaces `pop`. */
  function Step(d: Matrix, pop: seq<Tour>, sel: Selection, children: nat, rate: real,
                dr: GenerationDraws): (next: seq<Tour>)
    requires ValidPopulation(d, pop) && sel.elites <= |pop|
    requires ValidGenerationDraws(dr, |pop|, sel, children, |d|)
    ensures |next| == ParentCount(sel) + children
    ensures ValidPopulation(d, next)
    ensures next[..ParentCount(sel)] == SelectParents(pop, EvaluateFitness(d, pop), sel, dr.picks)
    ensures AllPermutations(next[..ParentCount(sel)], |d|)
    ensures next[ParentCount(sel)..]
         == Mutate(Crossover(next[..ParentCount(sel)], |d|, dr.crossovers), |d|, rate, dr.mutations)
  {
    var parents := SelectParents(pop, EvaluateFitness(d, pop), sel, dr.picks);
    ParentsAreRows(pop, EvaluateFitness(d, pop), sel, dr.picks);
    assert AllPermutations(parents, |d|);
    Breed(parents, |d|, rate, dr.crossovers, dr.mutations)
  }

  /** With at least one elite, a cheapest tour of the population survives at
      the front of the next one, so the least cost never rises. */
  lemma StepKeepsBest(d: Matrix, pop: seq<Tour>, sel: Selection, children: nat, rate: real,
                      dr: GenerationDraws)
    requires ValidPopulation(d, pop) && sel.elites <= |pop|
    requires ValidGenerationDraws(dr, |pop|, sel, children, |d|)
    requires sel.elites > 0
    ensures |pop| > 0
    ensures IndexesCities(d, Step(d, pop, sel, children, rate, dr)[0])
    ensures CyclicCost(d, Step(d, pop, sel, children, rate, dr)[0]) == LeastCost(d, pop)
    ensures LeastCost(d, Step(d, pop, sel, children, rate, dr)) <= LeastCost(d, pop)
  {
    var fit := EvaluateFitness(d, pop);
    var parents := SelectParents(pop, fit, sel, dr.picks);
    var next := Step(d, pop, sel, children, rate, dr);
    FirstParentIsFittest(pop, fit, sel, dr.picks);
    var k :| 0 <= k < |pop| && parents[0] == pop[k] && forall j :: 0 <= j < |pop| ==> fit[j] <= fit[k];
    assert next[0] == next[..ParentCount(sel)][0] == parents[0];
    FittestIsCheapest(d, pop, k);
    PopulationIndexesCities(d, next);
  }

  // ---------------------------------------------------------------------
  // The run
  // ---------------------------------------------------------------------

  /** What a run fixes before it starts: the size of the random initial
      population, the parent selection and the number of children of every
      generation, the number of generations and the initial mutation
      rate. */
  datatype Plan = Plan(initialSize: nat, sel: Selection, children: nat, generations: nat, seed: real)

  /** The size of the population evaluated in generation `g`: the initial
      size first, then parents plus children. */
  function SizeAt(plan: Plan, g: nat): nat {
    if g == 0 then plan.initialSize else ParentCount(plan.sel) + plan.children
  }

  /** Every population is non-empty and large enough for the elites and for
      the random picks drawn without replacement. */
  predicate Feasible(plan: Plan) {
    && 0 < plan.initialSize && 0 < ParentCount(plan.sel) + plan.children
    && plan.sel.elites <= plan.initialSize && plan.sel.randoms <= plan.initialSize
    && plan.sel.elites <= ParentCount(plan.sel) + plan.children
    && plan.sel.randoms <= ParentCount(plan.sel) + plan.children
  }

  /** `adaptive_mutation_rate`: the seed scaled down linearly over the run,
      never below 0.01. */
  function MutationRate(g: int, generations: int, seed: real): (rate: real)
    requires generations != 0
    ensures rate >= 0.01
  {
    MaxReal(0.01, seed * (1.0 - (g as real) / (generations as real)))
  }

  /** Over a run the rate starts at the larger of the seed and 0.01, never
      exceeds it, and never rises. */
  lemma MutationRateDecays(g: int, h: int, generations: int, seed: real)
    requires 0 <= g <= h <= generations && generations > 0 && seed >= 0.0
    ensures MutationRate(0, generations, seed) == MaxReal(0.01, seed)
    ensures MutationRate(h, generations, seed) <= MutationRate(g, generations, seed) <= MaxReal(0.01, seed)
  {
    var G := generations as real;
    var x, y := (g as real) / G, (h as real) / G;
    assert 0.0 <= x <= y;
    ProductNonNegative(seed, x);
    ProductNonNegative(seed, y - x);
    assert seed * (1.0 - y) == seed * (1.0 - x) - seed * (y - x);
    assert seed * (1.0 - x) == seed - seed * x;
  }

  /** A generation's draws for every generation of the plan. */
  predicate ValidRunDraws(plan: Plan, n: int, draws: seq<GenerationDraws>) {
    && |draws| == plan.generations
    && forall g :: 0 <= g < |draws| ==>
         ValidGenerationDraws(draws[g], SizeAt(plan, g), plan.sel, plan.children, n)
  }

  /** Everything one run of the generation loop depends on: the distance
      matrix, the plan, the random initial population and the draws of every
      generation. */
  datatype Inputs = Inputs(d: Matrix, plan: Plan, initial: seq<Tour>, draws: seq<GenerationDraws>)

  predicate Runs(x: Inputs) {
    && ValidPopulation(x.d, x.initial) && |x.initial| == x.plan.initialSize
    && Feasible(x.plan) && ValidRunDraws(x.plan, |x.d|, x.draws)
  }

  /** Inputs on which the loop runs without error. */
  type Run = x: Inputs | Runs(x)
    witness Inputs([[0, 1], [1, 0]], Plan(1, Selection(0, 0), 1, 0, 0.0), [Range(2)], [])

  /** The population evaluated in generation `g` (for `g == generations`,
      the one left after the loop). */
  function PopulationAt(run: Run, g: nat): (pop: seq<Tour>)
    requires g <= run.plan.generations
    ensures ValidPopulation(run.d, pop)
    ensures |pop| == SizeAt(run.plan, g) > 0
    decreases g
  {
    if g == 0 then run.initial
    else
      Step(run.d, PopulationAt(run, g - 1), run.plan.sel, run.plan.children,
           MutationRate(g - 1, run.plan.generations, run.plan.seed), run.draws[g - 1])
  }

  /** The least tour cost of generation `g`. */
  function CostAt(run: Run, g: nat): int
    requires g <= run.plan.generations
  {
    LeastCost(run.d, PopulationAt(run, g))
  }

  /** `best_distances`: per generation, `1 / fitness[argmax(fitness)]` of
      the population before replacement. */
  function Trace(run: Run): (trace: seq<real>)
    ensures |trace| == run.plan.generations
  {
    seq(run.plan.generations, g requires 0 <= g < run.plan.generations =>
      BestDistance(EvaluateFitness(run.d, PopulationAt(run, g))))
  }

  /** Each trace entry is the least tour cost of that generation. */
  lemma TraceIsLeastCost(run: Run)
    ensures forall g :: 0 <= g < run.plan.generations ==> Trace(run)[g] == CostAt(run, g) as real
  {
    forall g | 0 <= g < run.plan.generations ensures Trace(run)[g] == CostAt(run, g) as real {
      BestDistanceIsLeastCost(run.d, PopulationAt(run, g));
    }
  }

  /** The step from generation `g` to generation `g + 1`. */
  lemma NextGeneration(run: Run, g: nat)
    requires g < run.plan.generations
    ensures PopulationAt(run, g + 1)
              == Step(run.d, PopulationAt(run, g), run.plan.sel, run.plan.children,
                      MutationRate(g, run.plan.generations, run.plan.seed), run.draws[g])
  {
  }

  /** With at least one elite, a cheapest tour of generation `g` is the
      first tour of generation `g + 1`. */
  lemma GenerationStep(run: Run, g: nat)
    requires run.plan.sel.elites > 0 && g < run.plan.generations
    ensures IndexesCities(run.d, PopulationAt(run, g + 1)[0])
    ensures CyclicCost(run.d, PopulationAt(run, g + 1)[0]) == CostAt(run, g)
    ensures CostAt(run, g + 1) <= CostAt(run, g)
  {
    var pop := PopulationAt(run, g);
    var rate := MutationRate(g, run.plan.generations, run.plan.seed);
    StepKeepsBest(run.d, pop, run.plan.sel, run.plan.children, rate, run.draws[g]);
    NextGeneration(run, g);
  }

  /** With at least one elite, one generation does not raise the least
      cost. */
  lemma LeastCostStep(run: Run, g: nat)
    requires run.plan.sel.elites > 0 && g < run.plan.generations
    ensures CostAt(run, g + 1) <= CostAt(run, g)
  {
    GenerationStep(run, g);
  }

  /** The least cost of every generation, the one left after the loop
      included. */
  function CostTrace(run: Run): (costs: seq<int>)
    ensures |costs| == run.plan.generations + 1
    ensures forall k :: 0 <= k < |costs| ==> costs[k] == CostAt(run, k)
  {
    seq(run.plan.generations + 1, k requires 0 <= k <= run.plan.generations => CostAt(run, k))
  }

  /** With at least one elite, the least costs never rise from one
      generation to the next. */
  lemma CostTraceSteps(run: Run)
    requires run.plan.sel.elites > 0
    ensures forall k :: 0 <= k < run.plan.generations ==> CostTrace(run)[k + 1] <= CostTrace(run)[k]
  {
    var costs := CostTrace(run);
    forall k | 0 <= k < run.plan.generations ensures costs[k + 1] <= costs[k] {
      LeastCostStep(run, k);
    }
  }

  /** With at least one elite, the least cost of the population never rises
      from one generation to any later one. */
  lemma LeastCostNeverRises(run: Run, g: nat, h: nat)
    requires run.plan.sel.elites > 0 && g <= h <= run.plan.generations
    ensures CostAt(run, h) <= CostAt(run, g)
  {
    CostTraceSteps(run);
    NonIncreasingChain(CostTrace(run), g, h);
  }

  /** A sequence that never rises from one entry to the next never rises
      from any entry to a later one. */
  lemma {:induction false} NonIncreasingChain(xs: seq<int>, g: int, h: int)
    requires forall k :: 0 <= k < |xs| - 1 ==> xs[k + 1] <= xs[k]
    requires 0 <= g <= h < |xs|
    ensures xs[h] <= xs[g]
    decreases h - g
  {
    if g < h {
      NonIncreasingChain(xs, g + 1, h);
    }
  }

  /** With at least one elite, the recorded best distances never rise. */
  lemma TraceNonIncreasing(run: Run)
    requires run.plan.sel.elites > 0
    ensures forall g, h :: 0 <= g <= h < run.plan.generations ==> Trace(run)[h] <= Trace(run)[g]
  {
    TraceIsLeastCost(run);
    forall g, h | 0 <= g <= h < run.plan.generations ensures Trace(run)[h] <= Trace(run)[g] {
      LeastCostNeverRises(run, g, h);
    }
  }

  // ---------------------------------------------------------------------
  // The returned pair
  // ---------------------------------------------------------------------

  /** What a run returns: `math.ceil` of the best distance, the returned
      tour, and the per-generation trace the plot is drawn from. */
  datatype Report = Report(cost: int, tour: Tour, trace: seq<real>)

  /** What a run over a single city returns after `generations` passes:
      every tour is `[0]` at cost 0, so every fitness is `1.0 / 0`, which
      numpy evaluates to infinity; `argmax` picks row 0, every best distance
      is `1.0 / inf`, that is 0.0, and the pair returned is `(0, [0])`. */
  function OneCityReport(generations: nat): Report {
    Report(0, [0], seq(generations, _ => 0.0))
  }

  /** The index `np.argmax` picks in the fitness of the last evaluated
      population: the position of a cheapest tour. */
  function BestIndex(run: Run): (best: int)
    requires run.plan.generations > 0
    ensures 0 <= best < SizeAt(run.plan, run.plan.generations - 1)
    ensures IndexesCities(run.d, PopulationAt(run, run.plan.generations - 1)[best])
    ensures CyclicCost(run.d, PopulationAt(run, run.plan.generations - 1)[best])
              == CostAt(run, run.plan.generations - 1)
  {
    var last := PopulationAt(run, run.plan.generations - 1);
    FittestIsCheapest(run.d, last, ArgMax(EvaluateFitness(run.d, last)));
    ArgMax(EvaluateFitness(run.d, last))
  }

  /** The end of the run as written: the cost is the least cost of the last
      evaluated population, but the tour is read at that population's best
      index from the population that replaced it, which can be a different
      tour or no tour at all. */
  function Finish(run: Run): (r: Result<Report>)
    requires run.plan.generations > 0
    ensures r.Success? <==> BestIndex(run) < SizeAt(run.plan, run.plan.generations)
    ensures r.Failure? ==> r.error == IndexOutOfRange
    ensures r.Success? ==>
              && r.value.cost == CostAt(run, run.plan.generations - 1)
              && r.value.tour == PopulationAt(run, run.plan.generations)[BestIndex(run)]
              && IsPermutation(r.value.tour, |run.d|)
              && r.value.trace == Trace(run)
              && r.value.trace[run.plan.generations - 1] == r.value.cost as real
    ensures SizeAt(run.plan, run.plan.generations - 1) <= SizeAt(run.plan, run.plan.generations) ==> r.Success?
  {
    var last := PopulationAt(run, run.plan.generations - 1);
    var fit := EvaluateFitness(run.d, last);
    var best := BestIndex(run);
    var final := PopulationAt(run, run.plan.generations);
    if best < |final| then
      BestDistanceIsLeastCost(run.d, last);
      TraceIsLeastCost(run);
      CeilOfInt(LeastCost(run.d, last));
      Success(Report(Ceil(1.0 / fit[best]), final[best], Trace(run)))
    else
      Failure(IndexOutOfRange)
  }

  /** The end of the run as evidently intended: the tour is read from the
      population the best index belongs to, so it always exists and its cost
      is the reported cost. */
  function FinishCorrected(run: Run): (r: Report)
    requires run.plan.generations > 0
    ensures IsPermutation(r.tour, |run.d|) && IndexesCities(run.d, r.tour)
    ensures r.cost == CyclicCost(run.d, r.tour)
    ensures r.cost == CostAt(run, run.plan.generations - 1)
    ensures r.trace == Trace(run) && r.trace[run.plan.generations - 1] == r.cost as real
  {
    var last := PopulationAt(run, run.plan.generations - 1);
    var fit := EvaluateFitness(run.d, last);
    var best := BestIndex(run);
    BestDistanceIsLeastCost(run.d, last);
    TraceIsLeastCost(run);
    CeilOfInt(LeastCost(run.d, last));
    Report(Ceil(1.0 / fit[best]), last[best], Trace(run))
  }

  /** The facts about a successful end of the run, stated on the value
      `Finish` returns. */
  lemma FinishReport(run: Run, generations: nat)
    requires generations == run.plan.generations > 0
    ensures Finish(run).Success? ==>
              && Finish(run).value.cost == CostAt(run, generations - 1)
              && IsPermutation(Finish(run).value.tour, |run.d|)
              && |Finish(run).value.trace| == generations
              && Finish(run).value.trace[generations - 1] == Finish(run).value.cost as real
  {
  }

  /** With at least one elite, the trace a successful run returns never
      rises. */
  lemma FinishTraceNonIncreasing(run: Run)
    requires run.plan.generations > 0 && run.plan.sel.elites > 0
    ensures Finish(run).Success? ==>
              forall g, h :: 0 <= g <= h < |Finish(run).value.trace| ==>
                Finish(run).value.trace[h] <= Finish(run).value.trace[g]
  {
    TraceNonIncreasing(run);
  }
}
