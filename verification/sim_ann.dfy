/** Simulated annealing of `algos/sim_ann.py`: from a random tour, each
    iteration exchanges two cities, accepts the neighbour when it is shorter
    or when the Metropolis comparison says so, keeps the best tour seen and
    records its cost, and cools the temperature along an exponential
    schedule. */
module SimAnn {
  import opened Numeric
  import opened Tours
  import opened Genetic
  import opened Outcome

  /** The values `sim_ann` reads from its arguments: `num_gen`, `init_temp`
      and `fin_temp`. */
  datatype Config = Config(iterations: int, initialTemp: real, finalTemp: real)

  /** How many times the loop body runs: `range` of a negative count is
      empty. */
  function Steps(cfg: Config): nat {
    if cfg.iterations > 0 then cfg.iterations else 0
  }

  /** What the model relies on about `np.exp`: it is 1 at 0, and positive
      and at most 1 on non-positive arguments. */
  ghost predicate ExpLike(exp: real -> real) {
    exp(0.0) == 1.0 && forall x :: x <= 0.0 ==> 0.0 < exp(x) <= 1.0
  }

  /** `distance` in `sim_ann.py` is the modular cyclic sum, the same cost
      whose reciprocal the genetic algorithm takes as fitness, there written
      as a chain plus the closing edge. */
  lemma DistanceIsGeneticCost(d: Matrix, t: Tour)
    requires IsDistanceMatrix(d) && |d| >= 2 && IsPermutation(t, |d|)
    ensures IndexesCities(d, t)
    ensures CyclicCost(d, t) == ChainCost(d, t) > 0
    ensures Fitness(d, t) == 1.0 / (CyclicCost(d, t) as real)
  {
    CostPositive(d, t);
    CostFormsAgree(d, t);
  }

  // ---------------------------------------------------------------------
  // Temperature schedule
  // ---------------------------------------------------------------------

  /** `adaptive_temperature`: the final temperature plus the remaining gap
      decayed by `exp(-5 * iteration / max_iterations)`. */
  function Temperature(cfg: Config, t: int, exp: real -> real): real
    requires cfg.iterations != 0
  {
    cfg.finalTemp + (cfg.initialTemp - cfg.finalTemp) * exp(((-5 * t) as real) / (cfg.iterations as real))
  }

  /** The schedule starts at the initial temperature. */
  lemma TemperatureStarts(cfg: Config, exp: real -> real)
    requires cfg.iterations != 0 && ExpLike(exp)
    ensures Temperature(cfg, 0, exp) == cfg.initialTemp
  {
    assert ((-5 * 0) as real) / (cfg.iterations as real) == 0.0;
  }

  /** With an initial temperature at least the final one, the schedule never
      leaves the band between them. */
  lemma TemperatureBetween(cfg: Config, t: int, exp: real -> real)
    requires cfg.iterations > 0 && t >= 0 && ExpLike(exp)
    requires cfg.initialTemp >= cfg.finalTemp
    ensures cfg.finalTemp <= Temperature(cfg, t, exp) <= cfg.initialTemp
  {
    var x := ((-5 * t) as real) / (cfg.iterations as real);
    assert x <= 0.0;
    var e := exp(x);
    var gap := cfg.initialTemp - cfg.finalTemp;
    ProductNonNegative(gap, e);
    ProductNonNegative(gap, 1.0 - e);
    assert gap * e == gap - gap * (1.0 - e);
  }

  // ---------------------------------------------------------------------
  // One move
  // ---------------------------------------------------------------------

  /** The draws of one iteration: the two distinct positions
      `np.random.choice(len(path), 2, replace=False)` picks, and the outcome
      of the Metropolis comparison `exp(-delta / T) > np.random.rand()`. */
  datatype Move = Move(i: int, j: int, metropolis: bool)

  predicate ValidMoves(moves: seq<Move>, n: int) {
    forall k :: 0 <= k < |moves| ==> 0 <= moves[k].i < n && 0 <= moves[k].j < n && moves[k].i != moves[k].j
  }

  /** `generate_neighbour`: a copy of the path with the cities at two
      distinct positions exchanged. The input is left as it is; the result
      is again a tour, and a different one. */
  function Neighbour(path: Tour, i: int, j: int): (r: Tour)
    requires 0 <= i < |path| && 0 <= j < |path| && i != j
    ensures |r| == |path| && r[i] == path[j] && r[j] == path[i]
    ensures forall k :: 0 <= k < |path| && k != i && k != j ==> r[k] == path[k]
    ensures multiset(r) == multiset(path)
    ensures Distinct(path) ==> r != path
  {
    var r := Swap(path, i, j);
    assert Distinct(path) ==> r[i] != path[i];
    r
  }

  /** A neighbour of a tour is a tour of the same cities. */
  lemma NeighbourIsTour(path: Tour, n: nat, i: int, j: int)
    requires IsPermutation(path, n)
    requires 0 <= i < |path| && 0 <= j < |path| && i != j
    ensures IsPermutation(Neighbour(path, i, j), n)
    ensures Neighbour(path, i, j) != path
  {
    PermutationFacts(path, n);
  }

  /** The acceptance test `delta < 0 or exp(-delta / T) > rand()`: Python's
      `or` consults the Metropolis comparison only for a candidate that is
      not shorter. */
  predicate Accepts(delta: int, metropolis: bool) {
    delta < 0 || metropolis
  }

  // ---------------------------------------------------------------------
  // The annealing loop
  // ---------------------------------------------------------------------

  /** The loop variables of `sim_ann`: the current path and its distance,
      the best path and its distance, the temperature the next iteration
      uses, and the recorded best distances. */
  datatype State = State(current: Tour, currentCost: int, best: Tour, bestCost: int,
                         temperature: real, trace: seq<int>)

  /** What holds before and after every iteration: both paths are tours
      whose distances are the recorded ones, the best is no longer than the
      current one, and the record never rises and ends at the best. */
  predicate Invariant(d: Matrix, s: State) {
    && IsPermutation(s.current, |d|) && IsPermutation(s.best, |d|)
    && |s.current| == |d| && |s.best| == |d|
    && IndexesCities(d, s.current) && IndexesCities(d, s.best)
    && s.currentCost == CyclicCost(d, s.current) && s.bestCost == CyclicCost(d, s.best)
    && s.bestCost <= s.currentCost
    && NonIncreasing(s.trace)
    && (|s.trace| > 0 ==> s.trace[|s.trace| - 1] == s.bestCost)
  }

  /** The state before the loop: the shuffled path is both current and best
      at the initial temperature, and nothing is recorded yet. */
  function Start(d: Matrix, cfg: Config, start: Tour): (s: State)
    requires IsDistanceMatrix(d) && IsPermutation(start, |d|)
    ensures Invariant(d, s) && s.trace == []
    ensures s.current == s.best == start && s.temperature == cfg.initialTemp
  {
    PermutationFacts(start, |d|);
    var cost := CyclicCost(d, start);
    State(start, cost, start, cost, cfg.initialTemp, [])
  }

  /** One pass of the loop body, iteration `t`: propose a neighbour, accept
      it or not, keep the better of the best and the current path, record
      the best distance, and compute the next temperature. */
  function Iterate(d: Matrix, cfg: Config, exp: real -> real, s: State, t: int, m: Move): (next: State)
    requires IsDistanceMatrix(d) && Invariant(d, s) && cfg.iterations != 0
    requires 0 <= m.i < |d| && 0 <= m.j < |d| && m.i != m.j
    ensures Invariant(d, next)
    ensures |next.trace| == |s.trace| + 1 && next.trace[..|s.trace|] == s.trace
    ensures next.bestCost <= s.bestCost && next.bestCost <= next.currentCost
    ensures next.best == s.best || next.best == next.current
    ensures next.current == s.current || next.current == Neighbour(s.current, m.i, m.j)
    ensures IndexesCities(d, Neighbour(s.current, m.i, m.j))
    ensures var candidate := Neighbour(s.current, m.i, m.j);
            var cost := CyclicCost(d, candidate);
            if Accepts(cost - s.currentCost, m.metropolis)
            then next.current == candidate && next.currentCost == cost
            else next.current == s.current && next.currentCost == s.currentCost
    ensures if next.currentCost < s.bestCost
            then next.best == next.current && next.bestCost == next.currentCost
            else next.best == s.best && next.bestCost == s.bestCost
    ensures next.temperature == Temperature(cfg, t, exp)
  {
    PermutationFacts(s.current, |d|);
    var candidate := Neighbour(s.current, m.i, m.j);
    NeighbourIsTour(s.current, |d|, m.i, m.j);
    PermutationFacts(candidate, |d|);
    var cost := CyclicCost(d, candidate);
    var accepted := Accepts(cost - s.currentCost, m.metropolis);
    var current := if accepted then candidate else s.current;
    var currentCost := if accepted then cost else s.currentCost;
    var best := if currentCost < s.bestCost then current else s.best;
    var bestCost := if currentCost < s.bestCost then currentCost else s.bestCost;
    AppendKeepsNonIncreasing(s.trace, bestCost);
    State(current, currentCost, best, bestCost, Temperature(cfg, t, exp), s.trace + [bestCost])
  }

  /** A shorter candidate becomes the current path whatever the Metropolis
      comparison says: flipping its outcome does not change the iteration. */
  lemma ShorterIsAccepted(d: Matrix, cfg: Config, exp: real -> real, s: State, t: int, m: Move)
    requires IsDistanceMatrix(d) && Invariant(d, s) && cfg.iterations != 0
    requires 0 <= m.i < |d| && 0 <= m.j < |d| && m.i != m.j
    ensures IndexesCities(d, Neighbour(s.current, m.i, m.j))
    ensures CyclicCost(d, Neighbour(s.current, m.i, m.j)) < s.currentCost ==>
              && Iterate(d, cfg, exp, s, t, m).current == Neighbour(s.current, m.i, m.j)
              && Iterate(d, cfg, exp, s, t, m) == Iterate(d, cfg, exp, s, t, Move(m.i, m.j, !m.metropolis))
  {
    var other := Move(m.i, m.j, !m.metropolis);
    var a, b := Iterate(d, cfg, exp, s, t, m), Iterate(d, cfg, exp, s, t, other);
    if CyclicCost(d, Neighbour(s.current, m.i, m.j)) < s.currentCost {
      assert a.current == b.current && a.currentCost == b.currentCost;
    }
  }

  /** A candidate that is not shorter replaces the current path exactly when
      the Metropolis comparison succeeds; the swap always changes the path,
      so a rejected candidate is visible as an unchanged current path. */
  lemma LongerNeedsMetropolis(d: Matrix, cfg: Config, exp: real -> real, s: State, t: int, m: Move)
    requires IsDistanceMatrix(d) && Invariant(d, s) && cfg.iterations != 0
    requires 0 <= m.i < |d| && 0 <= m.j < |d| && m.i != m.j
    ensures IndexesCities(d, Neighbour(s.current, m.i, m.j))
    ensures CyclicCost(d, Neighbour(s.current, m.i, m.j)) >= s.currentCost ==>
              && (Iterate(d, cfg, exp, s, t, m).current == Neighbour(s.current, m.i, m.j) <==> m.metropolis)
              && (!m.metropolis ==> Iterate(d, cfg, exp, s, t, m).current == s.current)
  {
    NeighbourIsTour(s.current, |d|, m.i, m.j);
    var next := Iterate(d, cfg, exp, s, t, m);
  }

  /** What the caller supplies: a distance matrix, the shuffled start path,
      and, when there are two cities to exchange, the draws of every
      iteration. */
  predicate Given(d: Matrix, cfg: Config, start: Tour, moves: seq<Move>) {
    && IsDistanceMatrix(d) && IsPermutation(start, |d|)
    && (|d| >= 2 ==> |moves| == Steps(cfg) && ValidMoves(moves, |d|))
  }

  /** The loop state after its first `k` iterations. */
  function StateAt(d: Matrix, cfg: Config, exp: real -> real, start: Tour, moves: seq<Move>, k: nat): (s: State)
    requires IsDistanceMatrix(d) && IsPermutation(start, |d|)
    requires k <= Steps(cfg) && k <= |moves| && ValidMoves(moves, |d|)
    ensures Invariant(d, s) && |s.trace| == k
    decreases k
  {
    if k == 0 then Start(d, cfg, start)
    else Iterate(d, cfg, exp, StateAt(d, cfg, exp, start, moves, k - 1), k - 1, moves[k - 1])
  }

  /** Entry `g` of the record is the best distance after iteration `g`: the
      record is never rewritten, only extended. */
  lemma {:induction false} TraceRecordsBest(d: Matrix, cfg: Config, exp: real -> real, start: Tour,
                                            moves: seq<Move>, k: nat, g: nat)
    requires IsDistanceMatrix(d) && IsPermutation(start, |d|)
    requires k <= Steps(cfg) && k <= |moves| && ValidMoves(moves, |d|)
    requires g < k
    ensures StateAt(d, cfg, exp, start, moves, k).trace[g] == StateAt(d, cfg, exp, start, moves, g + 1).bestCost
    decreases k
  {
    var s := StateAt(d, cfg, exp, start, moves, k);
    var prev := StateAt(d, cfg, exp, start, moves, k - 1);
    if g < k - 1 {
      TraceRecordsBest(d, cfg, exp, start, moves, k - 1, g);
      assert s.trace[g] == s.trace[..|prev.trace|][g] == prev.trace[g];
    }
  }

  /** One iteration keeps the best distance or lowers it to the current
      one. */
  lemma BestStep(d: Matrix, cfg: Config, exp: real -> real, start: Tour, moves: seq<Move>, k: nat)
    requires IsDistanceMatrix(d) && IsPermutation(start, |d|)
    requires 0 < k <= Steps(cfg) && k <= |moves| && ValidMoves(moves, |d|)
    ensures var s := StateAt(d, cfg, exp, start, moves, k);
            var prev := StateAt(d, cfg, exp, start, moves, k - 1);
            && s.bestCost <= prev.bestCost && s.bestCost <= s.currentCost
            && (s.bestCost == prev.bestCost || s.bestCost == s.currentCost)
  {
  }

  /** The best distances after iterations `0..k`. */
  function BestCosts(d: Matrix, cfg: Config, exp: real -> real, start: Tour, moves: seq<Move>, k: nat): (b: seq<int>)
    requires IsDistanceMatrix(d) && IsPermutation(start, |d|)
    requires k <= Steps(cfg) && k <= |moves| && ValidMoves(moves, |d|)
    ensures |b| == k + 1
    ensures forall i :: 0 <= i <= k ==> b[i] == StateAt(d, cfg, exp, start, moves, i).bestCost
  {
    seq(k + 1, i requires 0 <= i <= k => StateAt(d, cfg, exp, start, moves, i).bestCost)
  }

  /** The current distances after iterations `0..k`. */
  function CurrentCosts(d: Matrix, cfg: Config, exp: real -> real, start: Tour, moves: seq<Move>, k: nat): (c: seq<int>)
    requires IsDistanceMatrix(d) && IsPermutation(start, |d|)
    requires k <= Steps(cfg) && k <= |moves| && ValidMoves(moves, |d|)
    ensures |c| == k + 1
    ensures forall i :: 0 <= i <= k ==> c[i] == StateAt(d, cfg, exp, start, moves, i).currentCost
  {
    seq(k + 1, i requires 0 <= i <= k => StateAt(d, cfg, exp, start, moves, i).currentCost)
  }

  /** The best distance after `k` iterations is the least distance the
      current path has had so far, and one it has had. */
  lemma BestIsRunningMinimum(d: Matrix, cfg: Config, exp: real -> real, start: Tour, moves: seq<Move>, k: nat)
    requires IsDistanceMatrix(d) && IsPermutation(start, |d|)
    requires k <= Steps(cfg) && k <= |moves| && ValidMoves(moves, |d|)
    ensures var b := BestCosts(d, cfg, exp, start, moves, k);
            var c := CurrentCosts(d, cfg, exp, start, moves, k);
            && (forall m :: 0 <= m <= k ==> b[k] <= c[m])
            && (exists m :: 0 <= m <= k && b[k] == c[m])
  {
    var b := BestCosts(d, cfg, exp, start, moves, k);
    var c := CurrentCosts(d, cfg, exp, start, moves, k);
    forall i | 0 < i < |b|
      ensures b[i] <= b[i - 1] && b[i] <= c[i] && (b[i] == b[i - 1] || b[i] == c[i])
    {
      BestStep(d, cfg, exp, start, moves, i);
    }
    RunningMinimum(b, c, k);
  }

  /** The loop ends with a best distance no longer than the shuffled start
      path's. */
  lemma NoWorseThanStart(d: Matrix, cfg: Config, exp: real -> real, start: Tour, moves: seq<Move>, k: nat)
    requires IsDistanceMatrix(d) && IsPermutation(start, |d|)
    requires k <= Steps(cfg) && k <= |moves| && ValidMoves(moves, |d|)
    ensures IndexesCities(d, start)
    ensures StateAt(d, cfg, exp, start, moves, k).bestCost <= CyclicCost(d, start)
  {
    BestIsRunningMinimum(d, cfg, exp, start, moves, k);
    var c := CurrentCosts(d, cfg, exp, start, moves, k);
    assert c[0] == StateAt(d, cfg, exp, start, moves, 0).currentCost;
  }

  /** The temperature iteration `k` uses lags the schedule by one step: the
      initial temperature first, then the schedule's value for the previous
      iteration; with an initial temperature at least the final one it stays
      between the two. */
  lemma TemperatureInIteration(d: Matrix, cfg: Config, exp: real -> real, start: Tour, moves: seq<Move>, k: nat)
    requires IsDistanceMatrix(d) && IsPermutation(start, |d|)
    requires k < Steps(cfg) && k <= |moves| && ValidMoves(moves, |d|)
    ensures StateAt(d, cfg, exp, start, moves, k).temperature
              == if k == 0 then cfg.initialTemp else Temperature(cfg, k - 1, exp)
    ensures ExpLike(exp) && cfg.initialTemp >= cfg.finalTemp ==>
              cfg.finalTemp <= StateAt(d, cfg, exp, start, moves, k).temperature <= cfg.initialTemp
  {
    if ExpLike(exp) && cfg.initialTemp >= cfg.finalTemp && k > 0 {
      TemperatureBetween(cfg, k - 1, exp);
    }
  }

  /** What `sim_ann` returns, together with the best distances it plots. */
  datatype Report = Report(cost: int, tour: Tour, trace: seq<int>)

  /** `sim_ann`: with fewer than two cities the first neighbour cannot be
      drawn; otherwise the loop runs and the best distance is rounded up. */
  function Solve(d: Matrix, cfg: Config, exp: real -> real, start: Tour, moves: seq<Move>): (r: Result<Report>)
    requires Given(d, cfg, start, moves)
    ensures r.Failure? <==> Steps(cfg) > 0 && |d| < 2
    ensures r.Failure? ==> r.error == SampleExceedsPopulation
    ensures r.Success? ==>
              && IsPermutation(r.value.tour, |d|) && IndexesCities(d, r.value.tour)
              && r.value.cost == CyclicCost(d, r.value.tour) && IndexesCities(d, start) && r.value.cost <= CyclicCost(d, start)
              && |r.value.trace| == Steps(cfg) && NonIncreasing(r.value.trace)
              && (Steps(cfg) > 0 ==> r.value.trace[Steps(cfg) - 1] == r.value.cost)
  {
    if Steps(cfg) > 0 && |d| < 2 then Failure(SampleExceedsPopulation)
    else
      var ms := if |d| >= 2 then moves else [];
      var s := StateAt(d, cfg, exp, start, ms, Steps(cfg));
      NoWorseThanStart(d, cfg, exp, start, ms, Steps(cfg));
      CeilOfInt(s.bestCost);
      Success(Report(Ceil(s.bestCost as real), s.best, s.trace))
  }
}
