/** Ant-colony optimisation of `algos/aco.py`: in every iteration each ant
    builds a tour city by city from the cities it has not visited, the
    pheromone matrix evaporates and every ant deposits on the directed edges
    of its tour, and the cheapest tour seen so far is kept. */
module Aco {
  import opened Numeric
  import opened Tours
  import opened Outcome

  /** A square matrix of reals: pheromone levels or heuristic values. */
  type Levels = seq<seq<real>>

  predicate IsLevels(m: Levels, n: nat) {
    |m| == n && forall i :: 0 <= i < n ==> |m[i]| == n
  }

  /** The pheromone level every entry starts with (`initial_pheromone`). */
  const InitialPheromone: real := 1.0

  /** The deposit constant `Q` of `update_pheromones`. */
  const Deposit: real := 1.0

  // ---------------------------------------------------------------------
  // Sums of reals
  // ---------------------------------------------------------------------

  function RowSum(r: seq<real>): real
    decreases |r|
  {
    if |r| == 0 then 0.0 else RowSum(r[..|r| - 1]) + r[|r| - 1]
  }

  /** The sums of the rows of a matrix. */
  function RowSums(m: Levels): (sums: seq<real>)
    ensures |sums| == |m| && forall i :: 0 <= i < |m| ==> sums[i] == RowSum(m[i])
  {
    seq(|m|, i requires 0 <= i < |m| => RowSum(m[i]))
  }

  function MatrixSum(m: Levels): real {
    RowSum(RowSums(m))
  }

  /** Changing one value of a row changes its sum by the difference. */
  lemma {:induction false} RowSumUpdate(r: seq<real>, j: int, v: real)
    requires 0 <= j < |r|
    ensures RowSum(r[j := v]) == RowSum(r) - r[j] + v
    decreases |r|
  {
    var s := r[j := v];
    if j < |r| - 1 {
      assert s[..|s| - 1] == r[..|r| - 1][j := v];
      RowSumUpdate(r[..|r| - 1], j, v);
    } else {
      assert s[..|s| - 1] == r[..|r| - 1];
    }
  }

  /** Replacing one row of a matrix changes its sum by the difference of
      the row sums. */
  lemma MatrixSumUpdate(m: Levels, i: int, r: seq<real>)
    requires 0 <= i < |m|
    ensures MatrixSum(m[i := r]) == MatrixSum(m) - RowSum(m[i]) + RowSum(r)
  {
    assert RowSums(m[i := r]) == RowSums(m)[i := RowSum(r)];
    RowSumUpdate(RowSums(m), i, RowSum(r));
  }

  /** Scaling every value of a row scales its sum. */
  lemma {:induction false} RowSumScale(r: seq<real>, s: seq<real>, c: real)
    requires |s| == |r| && forall j :: 0 <= j < |r| ==> s[j] == r[j] * c
    ensures RowSum(s) == RowSum(r) * c
    decreases |r|
  {
    if |r| > 0 {
      var k := |r| - 1;
      RowSumScale(r[..k], s[..k], c);
      var a := RowSum(r[..k]);
      assert RowSum(s) == a * c + r[k] * c;
      assert a * c + r[k] * c == (a + r[k]) * c;
    }
  }

  /** Scaling every row of a matrix scales its sum. */
  lemma MatrixSumScale(m: Levels, s: Levels, c: real)
    requires |s| == |m| && forall i :: 0 <= i < |m| ==> RowSum(s[i]) == RowSum(m[i]) * c
    ensures MatrixSum(s) == MatrixSum(m) * c
  {
    RowSumScale(RowSums(m), RowSums(s), c);
  }

  // ---------------------------------------------------------------------
  // Initial pheromone and heuristic
  // ---------------------------------------------------------------------

  /** `initialize_pheromones`: an `n` by `n` matrix filled with one level. */
  function InitialPheromones(n: nat, level: real): (ph: Levels)
    ensures IsLevels(ph, n)
    ensures forall i, j :: 0 <= i < n && 0 <= j < n ==> ph[i][j] == level
  {
    seq(n, i => seq(n, j => level))
  }

  /** The initial matrix is symmetric and holds `n * n` times the level. */
  lemma InitialPheromonesTotal(n: nat, level: real)
    ensures var ph := InitialPheromones(n, level);
            forall i, j :: 0 <= i < n && 0 <= j < n ==> ph[i][j] == ph[j][i]
    ensures MatrixSum(InitialPheromones(n, level)) == (n * n) as real * level
  {
    var ph := InitialPheromones(n, level);
    InitialRows(n, level);
    ConstantRowSum(RowSums(ph), n as real * level);
    SquareTimes(n, level);
  }

  lemma InitialRows(n: nat, level: real)
    ensures forall i :: 0 <= i < n ==> RowSums(InitialPheromones(n, level))[i] == n as real * level
  {
    var ph := InitialPheromones(n, level);
    forall i | 0 <= i < n ensures RowSum(ph[i]) == n as real * level {
      ConstantRowSum(ph[i], level);
    }
  }

  lemma SquareTimes(n: nat, v: real)
    ensures n as real * (n as real * v) == (n * n) as real * v
  {
    var x := n as real;
    assert (n * n) as real == x * x;
    assert x * (x * v) == (x * x) * v;
  }

  lemma {:induction false} ConstantRowSum(r: seq<real>, v: real)
    requires forall j :: 0 <= j < |r| ==> r[j] == v
    ensures RowSum(r) == |r| as real * v
    decreases |r|
  {
    if |r| > 0 {
      ConstantRowSum(r[..|r| - 1], v);
    }
  }

  /** `heuristic`: the reciprocal distance, with the infinite reciprocal of
      a zero distance replaced by 0. */
  function Heuristic(d: Matrix): (h: Levels)
    requires IsSquare(d, |d|)
    ensures IsLevels(h, |d|)
    ensures forall i, j :: 0 <= i < |d| && 0 <= j < |d| ==>
              && (d[i][j] == 0 ==> h[i][j] == 0.0)
              && (d[i][j] != 0 ==> h[i][j] * (d[i][j] as real) == 1.0)
  {
    seq(|d|, i requires 0 <= i < |d| =>
      seq(|d|, j requires 0 <= j < |d| && IsSquare(d, |d|) =>
        if d[i][j] == 0 then 0.0 else 1.0 / (d[i][j] as real)))
  }

  /** On a distance matrix the heuristic is symmetric, 0 on the diagonal and
      positive elsewhere. */
  lemma HeuristicOfDistances(d: Matrix)
    requires IsDistanceMatrix(d)
    ensures var h := Heuristic(d);
            && (forall i, j :: 0 <= i < |d| && 0 <= j < |d| ==> h[i][j] == h[j][i])
            && (forall i :: 0 <= i < |d| ==> h[i][i] == 0.0)
            && (forall i, j :: 0 <= i < |d| && 0 <= j < |d| && i != j ==> h[i][j] > 0.0)
  {
    var h := Heuristic(d);
    forall i, j | 0 <= i < |d| && 0 <= j < |d| && i != j ensures h[i][j] == h[j][i] && h[i][j] > 0.0 {
      ReciprocalOfPositive(h[i][j], d[i][j] as real);
      ReciprocalOfPositive(h[j][i], d[j][i] as real);
    }
  }

  lemma ReciprocalOfPositive(x: real, y: real)
    requires y > 0.0 && x * y == 1.0
    ensures x == 1.0 / y && x > 0.0
  {
  }

  // ---------------------------------------------------------------------
  // Building one ant's path
  // ---------------------------------------------------------------------

  /** The list `unvisited`: the cities of `0..n-1` not on the path, in
      increasing order. */
  function Unvisited(n: nat, path: seq<int>): (u: seq<int>)
    ensures forall x :: x in u <==> 0 <= x < n && x !in path
    ensures forall a :: 0 <= a < |u| ==> 0 <= u[a] < n
    ensures forall a, b :: 0 <= a < b < |u| ==> u[a] < u[b]
    decreases n
  {
    if n == 0 then []
    else
      var below := Unvisited(n - 1, path);
      if n - 1 in path then below else below + [n - 1]
  }

  /** A path without repetitions leaves exactly the other cities unvisited:
      together they are a permutation, so there are `n - |path|` of them. */
  lemma UnvisitedCount(n: nat, path: seq<int>)
    requires Distinct(path) && InRange(path, n)
    ensures IsPermutation(path + Unvisited(n, path), n)
    ensures |Unvisited(n, path)| == n - |path|
  {
    var u := Unvisited(n, path);
    var t := path + u;
    forall a, b | 0 <= a < b < |t| ensures t[a] != t[b] {
      if b < |path| {
      } else if a >= |path| {
        assert u[a - |path|] < u[b - |path|];
      } else {
        assert t[a] in path && t[b] in u;
      }
    }
    forall x ensures x in t <==> 0 <= x < n {
      if x in path {
        var k :| 0 <= k < |path| && path[k] == x;
      }
    }
    PermutationFromFacts(t, n);
    PermutationFacts(t, n);
  }

  /** The draws of one ant: `np.random.randint(0, num_cities)` for its
      start, and for each later step the position in `unvisited` of the city
      the weighted `np.random.choice` picks. */
  datatype AntDraw = AntDraw(start: int, picks: seq<int>)

  /** Step `s` chooses among the `n - 1 - s` cities still unvisited. */
  predicate ValidAntDraw(a: AntDraw, n: int) {
    && 0 <= a.start < n && |a.picks| == n - 1
    && forall s :: 0 <= s < |a.picks| ==> 0 <= a.picks[s] < n - 1 - s
  }

  /** The `while len(path) < num_cities` loop: append the picked unvisited
      city until every city is on the path. */
  function Walk(n: nat, path: seq<int>, picks: seq<int>): (p: seq<int>)
    requires Distinct(path) && InRange(path, n) && |path| + |picks| == n
    requires forall s :: 0 <= s < |picks| ==> 0 <= picks[s] < n - |path| - s
    ensures IsPermutation(p, n) && |p| == n && p[..|path|] == path
    decreases |picks|
  {
    UnvisitedCount(n, path);
    if |picks| == 0 then
      assert path + Unvisited(n, path) == path;
      path
    else
      var u := Unvisited(n, path);
      var next := path + [u[picks[0]]];
      assert u[picks[0]] in u;
      var rest := Walk(n, next, picks[1..]);
      assert rest[..|path|] == rest[..|next|][..|path|];
      rest
  }

  /** Step `k` of the walk appends the city at position `picks[k - |path|]`
      of the list of cities not yet on the path before it. */
  lemma {:induction false} WalkFollowsPicks(n: nat, path: seq<int>, picks: seq<int>, k: int)
    requires Distinct(path) && InRange(path, n) && |path| + |picks| == n
    requires forall s :: 0 <= s < |picks| ==> 0 <= picks[s] < n - |path| - s
    requires |path| <= k < n
    ensures var p := Walk(n, path, picks);
            var u := Unvisited(n, p[..k]);
            |u| == n - k && p[k] == u[picks[k - |path|]]
    decreases |picks|
  {
    var p := Walk(n, path, picks);
    UnvisitedCount(n, path);
    var u := Unvisited(n, path);
    assert u[picks[0]] in u;
    var next := path + [u[picks[0]]];
    assert p == Walk(n, next, picks[1..]);
    if k == |path| {
      assert p[..|next|] == next;
      assert p[k] == next[k];
    } else {
      WalkFollowsPicks(n, next, picks[1..], k);
      assert picks[1..][k - |next|] == picks[k - |path|];
    }
  }

  /** `construct_solution` for one ant: its path visits every city once and
      begins at the drawn start city. */
  function ConstructPath(n: nat, a: AntDraw): (p: Tour)
    requires n >= 1 && ValidAntDraw(a, n)
    ensures IsPermutation(p, n) && |p| == n && InRange(p, n) && p[0] == a.start
  {
    var p := Walk(n, [a.start], a.picks);
    assert p[..1] == [a.start];
    PermutationFacts(p, n);
    p
  }

  /** The lists `solutions` and `costs` built by `construct_solution`. */
  datatype Colony = Colony(paths: seq<Tour>, costs: seq<int>)

  /** `construct_solution`: one tour per ant and, at the same index, its
      cost `sum(distance_matrix[path[i], path[(i + 1) % num_cities]])`. */
  function ConstructSolutions(d: Matrix, ants: seq<AntDraw>): (c: Colony)
    requires IsSquare(d, |d|) && |d| >= 1
    requires forall k :: 0 <= k < |ants| ==> ValidAntDraw(ants[k], |d|)
    ensures |c.paths| == |c.costs| == |ants|
    ensures forall k :: 0 <= k < |ants| ==>
              && IsPermutation(c.paths[k], |d|) && c.paths[k][0] == ants[k].start
              && IndexesCities(d, c.paths[k]) && c.costs[k] == CyclicCost(d, c.paths[k])
  {
    var paths := seq(|ants|, k requires 0 <= k < |ants| => ConstructPath(|d|, ants[k]));
    Colony(paths, seq(|ants|, k requires 0 <= k < |ants| => CyclicCost(d, paths[k])))
  }

  /** On a distance matrix of at least two cities every ant's tour costs at
      least one per city, so `Q / cost` is defined. */
  lemma ColonyCostsPositive(d: Matrix, ants: seq<AntDraw>)
    requires IsDistanceMatrix(d) && |d| >= 2
    requires forall k :: 0 <= k < |ants| ==> ValidAntDraw(ants[k], |d|)
    ensures var c := ConstructSolutions(d, ants);
            forall k :: 0 <= k < |ants| ==> c.costs[k] >= |d| > 0
  {
    var c := ConstructSolutions(d, ants);
    forall k | 0 <= k < |ants| ensures c.costs[k] >= |d| {
      CostPositive(d, c.paths[k]);
    }
  }

  // ---------------------------------------------------------------------
  // Pheromone update
  // ---------------------------------------------------------------------

  /** `pheromone *= (1 - evaporation_rate)`. */
  function Evaporate(ph: Levels, rho: real): (r: Levels)
    ensures |r| == |ph| && forall i :: 0 <= i < |ph| ==> |r[i]| == |ph[i]|
    ensures forall i, j :: 0 <= i < |ph| && 0 <= j < |ph[i]| ==> r[i][j] == ph[i][j] * (1.0 - rho)
  {
    seq(|ph|, i requires 0 <= i < |ph| => seq(|ph[i]|, j requires 0 <= j < |ph[i]| => ph[i][j] * (1.0 - rho)))
  }

  /** `pheromone[a, b] += v`. */
  function AddAt(ph: Levels, a: int, b: int, v: real): (r: Levels)
    requires 0 <= a < |ph| && 0 <= b < |ph[a]|
    ensures |r| == |ph| && forall i :: 0 <= i < |ph| ==> |r[i]| == |ph[i]|
    ensures forall i, j :: 0 <= i < |ph| && 0 <= j < |ph[i]| ==>
              r[i][j] == if i == a && j == b then ph[i][j] + v else ph[i][j]
  {
    ph[a := ph[a][b := ph[a][b] + v]]
  }

  /** The deposit of one ant whose tour is `path`: `amount` on each directed
      edge `path[i] -> path[(i + 1) % len(path)]` for `i` in `0..m-1`. */
  function DepositPath(ph: Levels, path: Tour, amount: real, m: nat): (r: Levels)
    requires IsLevels(ph, |ph|) && InRange(path, |ph|) && m <= |path|
    ensures IsLevels(r, |ph|)
    decreases m
  {
    if m == 0 then ph
    else
      var prev := DepositPath(ph, path, amount, m - 1);
      AddAt(prev, path[m - 1], path[m % |path|], amount)
  }

  /** What every ant may deposit on: a tour over the cities of the matrix,
      with a non-zero cost to divide by. */
  predicate Deposits(n: nat, paths: seq<Tour>, costs: seq<int>) {
    && |paths| == |costs|
    && forall k :: 0 <= k < |paths| ==> InRange(paths[k], n) && costs[k] != 0
  }

  /** The `for path, cost in zip(solutions, costs)` loop over its first `k`
      ants, each depositing `Q / cost`. */
  function DepositAll(ph: Levels, paths: seq<Tour>, costs: seq<int>, q: real, k: nat): (r: Levels)
    requires IsLevels(ph, |ph|) && Deposits(|ph|, paths, costs) && k <= |paths|
    ensures IsLevels(r, |ph|)
    decreases k
  {
    if k == 0 then ph
    else
      var prev := DepositAll(ph, paths, costs, q, k - 1);
      DepositPath(prev, paths[k - 1], q / (costs[k - 1] as real), |paths[k - 1]|)
  }

  /** `update_pheromones`: evaporate, then let every ant deposit. */
  function UpdatePheromones(ph: Levels, paths: seq<Tour>, costs: seq<int>, rho: real, q: real): (r: Levels)
    requires IsLevels(ph, |ph|) && Deposits(|ph|, paths, costs)
    ensures IsLevels(r, |ph|)
  {
    DepositAll(Evaporate(ph, rho), paths, costs, q, |paths|)
  }

  // The independent account of the update: how often each directed edge
  // occurs on each path, and what the ants deposit on it in total.

  /** How many of the positions `i < m` of `path` start the directed edge
      `a -> b`. */
  function EdgeCount(path: Tour, a: int, b: int, m: nat): (c: nat)
    requires m <= |path|
    ensures c <= m
    decreases m
  {
    if m == 0 then 0
    else EdgeCount(path, a, b, m - 1) + (if path[m - 1] == a && path[m % |path|] == b then 1 else 0)
  }

  /** The pheromone the first `k` ants lay on the directed edge `a -> b`:
      `Q / cost` once for each time the edge occurs on an ant's tour. */
  function EdgeDeposit(paths: seq<Tour>, costs: seq<int>, q: real, a: int, b: int, k: nat): real
    requires |paths| == |costs| && k <= |paths|
    requires forall j :: 0 <= j < |costs| ==> costs[j] != 0
    decreases k
  {
    if k == 0 then 0.0
    else EdgeDeposit(paths, costs, q, a, b, k - 1)
         + Times(EdgeCount(paths[k - 1], a, b, |paths[k - 1]|), q / (costs[k - 1] as real))
  }

  /** `c` copies of `amount` added up, the way repeated deposits add up. */
  function Times(c: nat, amount: real): real {
    if c == 0 then 0.0 else Times(c - 1, amount) + amount
  }

  lemma {:induction false} TimesIsProduct(c: nat, amount: real)
    ensures Times(c, amount) == amount * (c as real)
  {
    if c > 0 {
      TimesIsProduct(c - 1, amount);
      OneMore(amount, c - 1);
    }
  }

  lemma OneMore(amount: real, c: nat)
    ensures amount * (c as real) + amount == amount * ((c + 1) as real)
  {
  }

  /** One ant adds `amount` once per occurrence of the edge. */
  lemma {:induction false} DepositPathEntry(ph: Levels, path: Tour, amount: real, m: nat, a: int, b: int)
    requires IsLevels(ph, |ph|) && InRange(path, |ph|) && m <= |path|
    requires 0 <= a < |ph| && 0 <= b < |ph|
    ensures DepositPath(ph, path, amount, m)[a][b] == ph[a][b] + Times(EdgeCount(path, a, b, m), amount)
    decreases m
  {
    if m > 0 {
      DepositPathEntry(ph, path, amount, m - 1, a, b);
    }
  }

  /** The ants together add their deposits on the edge. */
  lemma {:induction false} DepositAllEntry(ph: Levels, paths: seq<Tour>, costs: seq<int>, q: real, k: nat, a: int, b: int)
    requires IsLevels(ph, |ph|) && Deposits(|ph|, paths, costs) && k <= |paths|
    requires 0 <= a < |ph| && 0 <= b < |ph|
    ensures DepositAll(ph, paths, costs, q, k)[a][b] == ph[a][b] + EdgeDeposit(paths, costs, q, a, b, k)
    decreases k
  {
    if k > 0 {
      DepositAllEntry(ph, paths, costs, q, k - 1, a, b);
      var prev := DepositAll(ph, paths, costs, q, k - 1);
      DepositPathEntry(prev, paths[k - 1], q / (costs[k - 1] as real), |paths[k - 1]|, a, b);
    }
  }

  /** Every entry `a -> b` ends at its evaporated old level plus `Q / cost`
      for every occurrence of the directed edge on every ant's tour. */
  lemma UpdateEntry(ph: Levels, paths: seq<Tour>, costs: seq<int>, rho: real, q: real, a: int, b: int)
    requires IsLevels(ph, |ph|) && Deposits(|ph|, paths, costs)
    requires 0 <= a < |ph| && 0 <= b < |ph|
    ensures UpdatePheromones(ph, paths, costs, rho, q)[a][b]
            == ph[a][b] * (1.0 - rho) + EdgeDeposit(paths, costs, q, a, b, |paths|)
  {
    DepositAllEntry(Evaporate(ph, rho), paths, costs, q, |paths|, a, b);
  }

  /** An entry whose directed edge lies on no ant's tour only evaporates. */
  lemma UntouchedEntry(ph: Levels, paths: seq<Tour>, costs: seq<int>, rho: real, q: real, a: int, b: int)
    requires IsLevels(ph, |ph|) && Deposits(|ph|, paths, costs)
    requires 0 <= a < |ph| && 0 <= b < |ph|
    requires forall k :: 0 <= k < |paths| ==> EdgeCount(paths[k], a, b, |paths[k]|) == 0
    ensures UpdatePheromones(ph, paths, costs, rho, q)[a][b] == ph[a][b] * (1.0 - rho)
  {
    UpdateEntry(ph, paths, costs, rho, q, a, b);
    NoEdgeNoDeposit(paths, costs, q, a, b, |paths|);
  }

  lemma {:induction false} NoEdgeNoDeposit(paths: seq<Tour>, costs: seq<int>, q: real, a: int, b: int, k: nat)
    requires |paths| == |costs| && k <= |paths|
    requires forall j :: 0 <= j < |costs| ==> costs[j] != 0
    requires forall j :: 0 <= j < k ==> EdgeCount(paths[j], a, b, |paths[j]|) == 0
    ensures EdgeDeposit(paths, costs, q, a, b, k) == 0.0
    decreases k
  {
    if k > 0 {
      NoEdgeNoDeposit(paths, costs, q, a, b, k - 1);
    }
  }

  /** Repeated non-negative deposits are non-negative. */
  lemma {:induction false} TimesNonNegative(c: nat, amount: real)
    requires amount >= 0.0
    ensures Times(c, amount) >= 0.0
  {
    if c > 0 {
      TimesNonNegative(c - 1, amount);
    }
  }

  lemma {:induction false} EdgeDepositNonNegative(paths: seq<Tour>, costs: seq<int>, q: real, a: int, b: int, k: nat)
    requires |paths| == |costs| && k <= |paths|
    requires forall j :: 0 <= j < |costs| ==> costs[j] > 0
    requires q >= 0.0
    ensures EdgeDeposit(paths, costs, q, a, b, k) >= 0.0
    decreases k
  {
    if k > 0 {
      EdgeDepositNonNegative(paths, costs, q, a, b, k - 1);
      var c := costs[k - 1] as real;
      assert q / c >= 0.0;
      TimesNonNegative(EdgeCount(paths[k - 1], a, b, |paths[k - 1]|), q / c);
    }
  }

  predicate NonNegative(ph: Levels) {
    forall i, j :: 0 <= i < |ph| && 0 <= j < |ph[i]| ==> ph[i][j] >= 0.0
  }

  /** With an evaporation rate in `[0, 1]`, a non-negative `Q` and positive
      tour costs, the update keeps every pheromone level non-negative. */
  lemma UpdateKeepsNonNegative(ph: Levels, paths: seq<Tour>, costs: seq<int>, rho: real, q: real)
    requires IsLevels(ph, |ph|) && Deposits(|ph|, paths, costs)
    requires NonNegative(ph) && 0.0 <= rho <= 1.0 && q >= 0.0
    requires forall k :: 0 <= k < |costs| ==> costs[k] > 0
    ensures NonNegative(UpdatePheromones(ph, paths, costs, rho, q))
  {
    var r := UpdatePheromones(ph, paths, costs, rho, q);
    forall a, b | 0 <= a < |r| && 0 <= b < |r[a]| ensures r[a][b] >= 0.0 {
      UpdateEntry(ph, paths, costs, rho, q, a, b);
      EdgeDepositNonNegative(paths, costs, q, a, b, |paths|);
      ProductNonNegative(ph[a][b], 1.0 - rho);
    }
  }

  /** The pheromone all `k` first ants lay in total: `Q / cost` on each of
      the `len(path)` edges of each tour. */
  function TotalDeposit(paths: seq<Tour>, costs: seq<int>, q: real, k: nat): real
    requires |paths| == |costs| && k <= |paths|
    requires forall j :: 0 <= j < |costs| ==> costs[j] != 0
    decreases k
  {
    if k == 0 then 0.0
    else TotalDeposit(paths, costs, q, k - 1) + Times(|paths[k - 1]|, q / (costs[k - 1] as real))
  }

  lemma EvaporateSum(ph: Levels, rho: real)
    ensures MatrixSum(Evaporate(ph, rho)) == MatrixSum(ph) * (1.0 - rho)
  {
    MatrixScale(ph, Evaporate(ph, rho), 1.0 - rho);
  }

  /** Scaling every value of a matrix scales its sum. */
  lemma MatrixScale(m: Levels, s: Levels, c: real)
    requires |s| == |m| && forall i :: 0 <= i < |m| ==> |s[i]| == |m[i]|
    requires forall i, j :: 0 <= i < |m| && 0 <= j < |m[i]| ==> s[i][j] == m[i][j] * c
    ensures MatrixSum(s) == MatrixSum(m) * c
  {
    forall i | 0 <= i < |m| ensures RowSum(s[i]) == RowSum(m[i]) * c {
      RowSumScale(m[i], s[i], c);
    }
    MatrixSumScale(m, s, c);
  }

  lemma AddAtSum(ph: Levels, a: int, b: int, v: real)
    requires 0 <= a < |ph| && 0 <= b < |ph[a]|
    ensures MatrixSum(AddAt(ph, a, b, v)) == MatrixSum(ph) + v
  {
    var row := ph[a][b := ph[a][b] + v];
    RowSumUpdate(ph[a], b, ph[a][b] + v);
    MatrixSumUpdate(ph, a, row);
  }

  lemma {:induction false} DepositPathSum(ph: Levels, path: Tour, amount: real, m: nat)
    requires IsLevels(ph, |ph|) && InRange(path, |ph|) && m <= |path|
    ensures MatrixSum(DepositPath(ph, path, amount, m)) == MatrixSum(ph) + Times(m, amount)
    decreases m
  {
    if m > 0 {
      DepositPathSum(ph, path, amount, m - 1);
      var prev := DepositPath(ph, path, amount, m - 1);
      AddAtSum(prev, path[m - 1], path[m % |path|], amount);
    }
  }

  lemma {:induction false} DepositAllSum(ph: Levels, paths: seq<Tour>, costs: seq<int>, q: real, k: nat)
    requires IsLevels(ph, |ph|) && Deposits(|ph|, paths, costs) && k <= |paths|
    ensures MatrixSum(DepositAll(ph, paths, costs, q, k)) == MatrixSum(ph) + TotalDeposit(paths, costs, q, k)
    decreases k
  {
    if k > 0 {
      DepositAllSum(ph, paths, costs, q, k - 1);
      var prev := DepositAll(ph, paths, costs, q, k - 1);
      DepositPathSum(prev, paths[k - 1], q / (costs[k - 1] as real), |paths[k - 1]|);
    }
  }

  /** The matrix total after the update is the evaporated old total plus
      `len(path) * Q / cost` for every ant. */
  lemma UpdateSum(ph: Levels, paths: seq<Tour>, costs: seq<int>, rho: real, q: real)
    requires IsLevels(ph, |ph|) && Deposits(|ph|, paths, costs)
    ensures MatrixSum(UpdatePheromones(ph, paths, costs, rho, q))
            == MatrixSum(ph) * (1.0 - rho) + TotalDeposit(paths, costs, q, |paths|)
  {
    EvaporateSum(ph, rho);
    DepositAllSum(Evaporate(ph, rho), paths, costs, q, |paths|);
  }

  /** Starting from the uniform matrix, one ant on the tour `0 -> 1 -> 2`
      raises the entry `0 -> 1` but leaves `1 -> 0` at its evaporated
      level: the update does not keep the matrix symmetric. */
  lemma DepositIsDirected(rho: real, q: real, cost: int)
    requires cost != 0 && q != 0.0
    ensures var r := UpdatePheromones(InitialPheromones(3, InitialPheromone), [[0, 1, 2]], [cost], rho, q);
            && r[0][1] == 1.0 - rho + q / (cost as real)
            && r[1][0] == 1.0 - rho
            && r[0][1] != r[1][0]
  {
    var ph := InitialPheromones(3, InitialPheromone);
    var paths: seq<Tour> := [[0, 1, 2]];
    assert EdgeCount(paths[0], 0, 1, 3) == 1;
    assert EdgeCount(paths[0], 1, 0, 3) == 0;
    UpdateEntry(ph, paths, [cost], rho, q, 0, 1);
    UpdateEntry(ph, paths, [cost], rho, q, 1, 0);
    assert q / (cost as real) != 0.0;
  }

  // ---------------------------------------------------------------------
  // The colony's best tour over the iterations
  // ---------------------------------------------------------------------

  /** `np.argmin(costs)`: the first position of the smallest cost. */
  function ArgMin(costs: seq<int>): (i: nat)
    requires |costs| >= 1
    ensures i < |costs|
    ensures forall j :: 0 <= j < |costs| ==> costs[i] <= costs[j]
    ensures forall j :: 0 <= j < i ==> costs[j] > costs[i]
    decreases |costs|
  {
    if |costs| == 1 then 0
    else
      var k := ArgMin(costs[..|costs| - 1]);
      if costs[|costs| - 1] < costs[k] then |costs| - 1 else k
  }

  /** `best_cost` and `best_path`: infinity and `None` until the first
      iteration. */
  datatype Best = NoBest | Best(cost: int, path: Tour)

  /** The loop state of `aco`: the pheromone matrix, the best tour so far
      and the list `best_distances`. */
  datatype State = State(pheromone: Levels, best: Best, trace: seq<int>)

  /** The arguments `aco` reads: `num_gen`, `num_ants` and
      `evaporation_rate`. */
  datatype Config = Config(numGen: int, numAnts: int, evaporationRate: real)

  /** `range(args.num_gen)` has this many iterations. */
  function Steps(cfg: Config): nat {
    if cfg.numGen > 0 then cfg.numGen else 0
  }

  /** `range(num_ants)` has this many ants. */
  function Ants(cfg: Config): nat {
    if cfg.numAnts > 0 then cfg.numAnts else 0
  }

  /** What the loop keeps true: the matrix stays `n` by `n`, the best tour
      is a tour of the cities with its own cost, one trace entry per
      iteration, non-increasing and ending at the best cost. */
  predicate Invariant(d: Matrix, st: State) {
    && IsSquare(d, |d|) && IsLevels(st.pheromone, |d|)
    && (st.best.Best? ==>
          IsPermutation(st.best.path, |d|) && IndexesCities(d, st.best.path)
          && st.best.cost == CyclicCost(d, st.best.path))
    && (st.best.NoBest? <==> |st.trace| == 0)
    && NonIncreasing(st.trace)
    && (st.best.Best? ==> st.trace[|st.trace| - 1] == st.best.cost)
  }

  /** The state before the first iteration. */
  function Start(d: Matrix): (st: State)
    requires IsSquare(d, |d|)
    ensures Invariant(d, st) && |st.trace| == 0
  {
    State(InitialPheromones(|d|, InitialPheromone), NoBest, [])
  }

  /** `if iteration_best_cost < best_cost`: the iteration's cheapest tour
      replaces the best one only when it is strictly cheaper, and always
      replaces the initial infinity. */
  function Improve(best: Best, cost: int, path: Tour): (b: Best)
    ensures b.Best? && b.cost <= cost
    ensures best.Best? ==> b.cost <= best.cost
    ensures b == best || b == Best(cost, path)
    ensures b == best <==> best.Best? && best.cost <= cost
  {
    if best.NoBest? || cost < best.cost then Best(cost, path) else best
  }

  /** `update_pheromones` with `Q = 1`; on a single city the only tour
      costs 0 and the matrix is left as it is. */
  function NextPheromone(d: Matrix, cfg: Config, ph: Levels, ants: seq<AntDraw>): (r: Levels)
    requires IsDistanceMatrix(d) && |d| >= 1 && IsLevels(ph, |d|)
    requires forall k :: 0 <= k < |ants| ==> ValidAntDraw(ants[k], |d|)
    ensures IsLevels(r, |d|)
    ensures |d| == 1 ==> r == ph
  {
    if |d| >= 2 then
      var c := ConstructSolutions(d, ants);
      ColonyCostsPositive(d, ants);
      UpdatePheromones(ph, c.paths, c.costs, cfg.evaporationRate, Deposit)
    else ph
  }

  /** One iteration of the `aco` loop: every ant builds a tour, the matrix
      is updated, and the cheapest tour of the iteration may become the
      best one. */
  function Iterate(d: Matrix, cfg: Config, st: State, ants: seq<AntDraw>): (r: State)
    requires IsDistanceMatrix(d) && |d| >= 1 && Invariant(d, st)
    requires |ants| >= 1 && forall k :: 0 <= k < |ants| ==> ValidAntDraw(ants[k], |d|)
    ensures Invariant(d, r)
    ensures |r.trace| == |st.trace| + 1 && r.trace[..|st.trace|] == st.trace
    ensures var c := ConstructSolutions(d, ants);
            r.best == Improve(st.best, c.costs[ArgMin(c.costs)], c.paths[ArgMin(c.costs)])
    ensures r.trace[|st.trace|] == r.best.cost
    ensures r.pheromone == NextPheromone(d, cfg, st.pheromone, ants)
  {
    var c := ConstructSolutions(d, ants);
    var i := ArgMin(c.costs);
    var best := Improve(st.best, c.costs[i], c.paths[i]);
    AppendKeepsNonIncreasing(st.trace, best.cost);
    State(NextPheromone(d, cfg, st.pheromone, ants), best, st.trace + [best.cost])
  }

  /** The draws of a whole run: one list of ant draws per iteration, each
      in range when there is a city to start from. */
  predicate Given(d: Matrix, cfg: Config, draws: seq<seq<AntDraw>>) {
    && IsDistanceMatrix(d)
    && |draws| == Steps(cfg)
    && forall g :: 0 <= g < |draws| ==>
         && |draws[g]| == Ants(cfg)
         && forall k :: 0 <= k < |draws[g]| ==> (|d| >= 1 ==> ValidAntDraw(draws[g][k], |d|))
  }

  /** The loop state after its first `k` iterations. */
  function StateAt(d: Matrix, cfg: Config, draws: seq<seq<AntDraw>>, k: nat): (st: State)
    requires Given(d, cfg, draws) && |d| >= 1 && Ants(cfg) >= 1 && k <= Steps(cfg)
    ensures Invariant(d, st) && |st.trace| == k
    decreases k
  {
    if k == 0 then Start(d)
    else Iterate(d, cfg, StateAt(d, cfg, draws, k - 1), draws[k - 1])
  }

  /** The cost `min(costs)` of the cheapest tour of iteration `g`. */
  function IterationBest(d: Matrix, cfg: Config, draws: seq<seq<AntDraw>>, g: nat): (m: int)
    requires Given(d, cfg, draws) && |d| >= 1 && Ants(cfg) >= 1 && g < Steps(cfg)
    ensures var c := ConstructSolutions(d, draws[g]);
            (forall j :: 0 <= j < |c.costs| ==> m <= c.costs[j]) && m in c.costs
  {
    var c := ConstructSolutions(d, draws[g]);
    c.costs[ArgMin(c.costs)]
  }

  /** The iteration minima of the first `k` iterations. */
  function IterationBests(d: Matrix, cfg: Config, draws: seq<seq<AntDraw>>, k: nat): (ms: seq<int>)
    requires Given(d, cfg, draws) && |d| >= 1 && Ants(cfg) >= 1 && k <= Steps(cfg)
    ensures |ms| == k && forall g :: 0 <= g < k ==> ms[g] == IterationBest(d, cfg, draws, g)
  {
    seq(k, g requires 0 <= g < k => IterationBest(d, cfg, draws, g))
  }

  /** Each iteration appends one entry to `best_distances`. */
  lemma TraceGrows(d: Matrix, cfg: Config, draws: seq<seq<AntDraw>>, k: nat)
    requires Given(d, cfg, draws) && |d| >= 1 && Ants(cfg) >= 1 && 0 < k <= Steps(cfg)
    ensures StateAt(d, cfg, draws, k).trace[..k - 1] == StateAt(d, cfg, draws, k - 1).trace
  {
  }

  /** In a chain of lists where each list extends the one before by one
      entry, entry `i` of a later list is the last entry of list `i + 1`. */
  lemma {:induction false} ChainKeepsEntry(ts: seq<seq<int>>, i: nat, k: nat)
    requires forall j :: 0 <= j < |ts| ==> |ts[j]| == j
    requires forall j :: 0 < j < |ts| ==> ts[j][..j - 1] == ts[j - 1]
    requires i < k < |ts|
    ensures ts[k][i] == ts[i + 1][i]
    decreases k
  {
    if k > i + 1 {
      ChainKeepsEntry(ts, i, k - 1);
      assert ts[k][..k - 1][i] == ts[k][i];
    }
  }

  /** The traces after `0, 1, ..., k` iterations. */
  function Traces(d: Matrix, cfg: Config, draws: seq<seq<AntDraw>>, k: nat): (ts: seq<seq<int>>)
    requires Given(d, cfg, draws) && |d| >= 1 && Ants(cfg) >= 1 && k <= Steps(cfg)
    ensures |ts| == k + 1 && forall j :: 0 <= j <= k ==> ts[j] == StateAt(d, cfg, draws, j).trace
  {
    seq(k + 1, j requires 0 <= j <= k => StateAt(d, cfg, draws, j).trace)
  }

  /** Later iterations never change an entry of `best_distances`: entry `i`
      stays what iteration `i` appended. */
  lemma TraceIsKept(d: Matrix, cfg: Config, draws: seq<seq<AntDraw>>, i: nat, k: nat)
    requires Given(d, cfg, draws) && |d| >= 1 && Ants(cfg) >= 1 && i < k <= Steps(cfg)
    ensures StateAt(d, cfg, draws, k).trace[i] == StateAt(d, cfg, draws, i + 1).trace[i]
  {
    var ts := Traces(d, cfg, draws, k);
    TracesChain(d, cfg, draws, k);
    ChainKeepsEntry(ts, i, k);
  }

  lemma TracesChain(d: Matrix, cfg: Config, draws: seq<seq<AntDraw>>, k: nat)
    requires Given(d, cfg, draws) && |d| >= 1 && Ants(cfg) >= 1 && k <= Steps(cfg)
    ensures var ts := Traces(d, cfg, draws, k);
            && (forall j :: 0 <= j < |ts| ==> |ts[j]| == j)
            && (forall j :: 0 < j < |ts| ==> ts[j][..j - 1] == ts[j - 1])
  {
    var ts := Traces(d, cfg, draws, k);
    forall j | 0 < j < |ts| ensures ts[j][..j - 1] == ts[j - 1] {
      TraceGrows(d, cfg, draws, j);
    }
  }

  /** The entry iteration `g` appends is the smaller of the entry before it
      and that iteration's cheapest tour. */
  lemma TraceStep(d: Matrix, cfg: Config, draws: seq<seq<AntDraw>>, g: nat)
    requires Given(d, cfg, draws) && |d| >= 1 && Ants(cfg) >= 1 && g < Steps(cfg)
    ensures var t := StateAt(d, cfg, draws, g + 1).trace;
            var m := IterationBest(d, cfg, draws, g);
            && t[g] <= m
            && (g == 0 ==> t[g] == m)
            && (g > 0 ==> t[g] <= t[g - 1] && (t[g] == t[g - 1] || t[g] == m))
  {
    var prev := StateAt(d, cfg, draws, g);
    var st := StateAt(d, cfg, draws, g + 1);
    assert st == Iterate(d, cfg, prev, draws[g]);
    if g > 0 {
      assert st.trace[..g] == prev.trace;
      assert st.trace[g - 1] == prev.trace[g - 1];
    }
  }

  /** Entry `i` of the trace after `k` iterations, against the entry before
      it and iteration `i`'s cheapest tour. */
  lemma TraceEntry(d: Matrix, cfg: Config, draws: seq<seq<AntDraw>>, k: nat, i: nat)
    requires Given(d, cfg, draws) && |d| >= 1 && Ants(cfg) >= 1 && i < k <= Steps(cfg)
    ensures var t := StateAt(d, cfg, draws, k).trace;
            var m := IterationBest(d, cfg, draws, i);
            && t[i] <= m && (i == 0 ==> t[i] == m)
            && (i > 0 ==> t[i] <= t[i - 1] && (t[i] == t[i - 1] || t[i] == m))
  {
    TraceStep(d, cfg, draws, i);
    TraceIsKept(d, cfg, draws, i, k);
    if i > 0 {
      TraceIsKept(d, cfg, draws, i - 1, k);
      TraceIsKept(d, cfg, draws, i - 1, i + 1);
    }
  }

  /** `best_distances` is the running minimum of the iteration minima: each
      entry is at most every earlier iteration's cheapest tour, and equals
      one of them. */
  lemma TraceIsRunningMinimum(d: Matrix, cfg: Config, draws: seq<seq<AntDraw>>, k: nat, g: nat)
    requires Given(d, cfg, draws) && |d| >= 1 && Ants(cfg) >= 1 && g < k <= Steps(cfg)
    ensures var t := StateAt(d, cfg, draws, k).trace;
            var ms := IterationBests(d, cfg, draws, k);
            && (forall m :: 0 <= m <= g ==> t[g] <= ms[m])
            && (exists m :: 0 <= m <= g && t[g] == ms[m])
  {
    var t := StateAt(d, cfg, draws, k).trace;
    var ms := IterationBests(d, cfg, draws, k);
    forall i | 0 <= i < k
      ensures t[i] <= ms[i] && (i == 0 ==> t[i] == ms[i])
      ensures i > 0 ==> t[i] <= t[i - 1] && (t[i] == t[i - 1] || t[i] == ms[i])
    {
      TraceEntry(d, cfg, draws, k, i);
    }
    RunningMinimum(t, ms, g);
  }

  /** The best tour after `k >= 1` iterations is the cheapest tour of one
      of them (the first cheapest, `solutions[np.argmin(costs)]`). */
  lemma {:induction false} BestIsAnAntTour(d: Matrix, cfg: Config, draws: seq<seq<AntDraw>>, k: nat)
      returns (g: nat, j: nat)
    requires Given(d, cfg, draws) && |d| >= 1 && Ants(cfg) >= 1 && 0 < k <= Steps(cfg)
    ensures g < k && j < Ants(cfg)
    ensures var c := ConstructSolutions(d, draws[g]);
            && j == ArgMin(c.costs)
            && StateAt(d, cfg, draws, k).best == Best(c.costs[j], c.paths[j])
    decreases k
  {
    var prev := StateAt(d, cfg, draws, k - 1);
    var c := ConstructSolutions(d, draws[k - 1]);
    var i := ArgMin(c.costs);
    if StateAt(d, cfg, draws, k).best == Best(c.costs[i], c.paths[i]) {
      g, j := k - 1, i;
    } else {
      g, j := BestIsAnAntTour(d, cfg, draws, k - 1);
    }
  }

  /** With an evaporation rate in `[0, 1]` every pheromone level stays
      non-negative throughout the run. */
  lemma {:induction false} PheromoneStaysNonNegative(d: Matrix, cfg: Config, draws: seq<seq<AntDraw>>, k: nat)
    requires Given(d, cfg, draws) && |d| >= 1 && Ants(cfg) >= 1 && k <= Steps(cfg)
    requires 0.0 <= cfg.evaporationRate <= 1.0
    ensures NonNegative(StateAt(d, cfg, draws, k).pheromone)
    decreases k
  {
    if k > 0 {
      PheromoneStaysNonNegative(d, cfg, draws, k - 1);
      var ph := StateAt(d, cfg, draws, k - 1).pheromone;
      NextKeepsNonNegative(d, cfg, ph, draws[k - 1]);
    }
  }

  lemma NextKeepsNonNegative(d: Matrix, cfg: Config, ph: Levels, ants: seq<AntDraw>)
    requires IsDistanceMatrix(d) && |d| >= 1 && IsLevels(ph, |d|)
    requires forall k :: 0 <= k < |ants| ==> ValidAntDraw(ants[k], |d|)
    requires NonNegative(ph) && 0.0 <= cfg.evaporationRate <= 1.0
    ensures NonNegative(NextPheromone(d, cfg, ph, ants))
  {
    if |d| >= 2 {
      var c := ConstructSolutions(d, ants);
      ColonyCostsPositive(d, ants);
      UpdateKeepsNonNegative(ph, c.paths, c.costs, cfg.evaporationRate, Deposit);
    }
  }

  /** What `aco` returns, `best_cost` and `best_path`, with the list
      `best_distances` it plots. */
  datatype Report = Report(best: Best, trace: seq<int>)

  /** `aco`: no iterations return `(inf, None)`; iterations without ants
      fail on `min([])`; ants without cities fail on their start draw. */
  function Solve(d: Matrix, cfg: Config, draws: seq<seq<AntDraw>>): (r: Result<Report>)
    requires Given(d, cfg, draws)
    ensures r == Failure(EmptyMin) <==> Steps(cfg) >= 1 && cfg.numAnts < 1
    ensures r == Failure(EmptyCityRange) <==> Steps(cfg) >= 1 && cfg.numAnts >= 1 && |d| == 0
    ensures r.Success? ==>
              && |r.value.trace| == Steps(cfg)
              && (r.value.best.NoBest? <==> Steps(cfg) == 0)
              && NonIncreasing(r.value.trace)
              && (r.value.best.Best? ==>
                    && IsPermutation(r.value.best.path, |d|)
                    && IndexesCities(d, r.value.best.path)
                    && r.value.best.cost == CyclicCost(d, r.value.best.path)
                    && r.value.trace[Steps(cfg) - 1] == r.value.best.cost)
  {
    if Steps(cfg) == 0 then Success(Report(NoBest, []))
    else if cfg.numAnts < 1 then Failure(EmptyMin)
    else if |d| == 0 then Failure(EmptyCityRange)
    else
      var st := StateAt(d, cfg, draws, Steps(cfg));
      Success(Report(st.best, st.trace))
  }

  /** The returned cost is no more than the cost of any tour any ant built
      in any iteration, and it is the cost of the iteration-best tour of
      one of them. */
  lemma SolveIsBestOfAllAnts(d: Matrix, cfg: Config, draws: seq<seq<AntDraw>>, g: nat, j: nat)
    requires Given(d, cfg, draws) && |d| >= 1 && cfg.numAnts >= 1
    requires g < Steps(cfg) && j < Ants(cfg)
    ensures var r := Solve(d, cfg, draws);
            && r.Success? && r.value.best.Best?
            && r.value.best.cost <= ConstructSolutions(d, draws[g]).costs[j]
            && exists h :: 0 <= h < Steps(cfg) && r.value.best.cost == IterationBest(d, cfg, draws, h)
  {
    var k := Steps(cfg);
    TraceIsRunningMinimum(d, cfg, draws, k, k - 1);
    var ms := IterationBests(d, cfg, draws, k);
    assert ms[g] <= ConstructSolutions(d, draws[g]).costs[j];
    var h :| 0 <= h <= k - 1 && StateAt(d, cfg, draws, k).trace[k - 1] == ms[h];
  }

  /** With no cities, one iteration and one ant, the start-city draw
      `randint(0, 0)` fails. */
  lemma NoCitiesFailsOnStart()
    ensures Given([], Config(1, 1, 0.5), [[AntDraw(0, [])]])
    ensures Solve([], Config(1, 1, 0.5), [[AntDraw(0, [])]]) == Failure(EmptyCityRange)
  {
    assert IsDistanceMatrix([]);
  }
}
