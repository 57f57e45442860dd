/** The problem representation every solver shares: the distance matrix,
    tours as permutations of the city indices, and the cyclic tour cost. */
module Tours {

  /** A distance matrix; row `i`, column `j` is the cost of travelling from
      city `i` to city `j`. */
  type Matrix = seq<seq<int>>

  /** A visiting order; the city after the last one is the first one. */
  type Tour = seq<int>

  predicate IsSquare(d: Matrix, n: nat) {
    |d| == n && forall i :: 0 <= i < n ==> |d[i]| == n
  }

  /** The input all three solvers take for granted: square, symmetric, zero
      on the diagonal and positive everywhere else. */
  predicate IsDistanceMatrix(d: Matrix) {
    && IsSquare(d, |d|)
    && (forall i, j :: 0 <= i < |d| && 0 <= j < |d| ==> d[i][j] == d[j][i])
    && (forall i :: 0 <= i < |d| ==> d[i][i] == 0)
    && (forall i, j :: 0 <= i < |d| && 0 <= j < |d| && i != j ==> d[i][j] > 0)
  }

  /** The cities `0, 1, ..., n-1` in order. */
  function Range(n: nat): (r: seq<int>)
    ensures |r| == n
    ensures forall i :: 0 <= i < n ==> r[i] == i
  {
    seq(n, i => i)
  }

  predicate InRange(t: seq<int>, n: int) {
    forall i :: 0 <= i < |t| ==> 0 <= t[i] < n
  }

  predicate Distinct(t: seq<int>) {
    forall i, j :: 0 <= i < j < |t| ==> t[i] != t[j]
  }

  /** `t` visits every city of `0..n-1` exactly once. */
  predicate IsPermutation(t: seq<int>, n: nat) {
    multiset(t) == multiset(Range(n))
  }

  /** In a sequence without repetitions every value occurs at most once. */
  lemma {:induction false} CountOfDistinct(t: seq<int>, x: int)
    requires Distinct(t)
    ensures multiset(t)[x] == if x in t then 1 else 0
  {
    if |t| > 0 {
      var init := t[..|t| - 1];
      assert t == init + [t[|t| - 1]];
      assert Distinct(init);
      CountOfDistinct(init, x);
      assert t[|t| - 1] !in init by {
        forall k | 0 <= k < |init| ensures init[k] != t[|t| - 1] {
          assert init[k] == t[k];
        }
      }
    }
  }

  lemma CountOfRange(n: nat, x: int)
    ensures multiset(Range(n))[x] == if 0 <= x < n then 1 else 0
  {
    CountOfDistinct(Range(n), x);
    if 0 <= x < n {
      assert Range(n)[x] == x;
    }
  }

  /** A value found at two positions occurs at least twice. */
  lemma RepeatedCount(t: seq<int>, i: int, j: int)
    requires 0 <= i < j < |t|
    ensures t[i] == t[j] ==> multiset(t)[t[i]] >= 2
  {
    if t[i] == t[j] {
      var pre := t[..j];
      assert t == pre + [t[j]] + t[j + 1..];
      assert pre[i] == t[i];
      assert multiset(pre)[t[i]] >= 1;
    }
  }

  /** What being a permutation of `0..n-1` means position by position. */
  lemma PermutationFacts(t: seq<int>, n: nat)
    requires IsPermutation(t, n)
    ensures |t| == n && InRange(t, n) && Distinct(t)
    ensures forall x :: x in t <==> 0 <= x < n
  {
    assert |t| == |multiset(t)| == |multiset(Range(n))| == n;
    forall x
      ensures x in t <==> 0 <= x < n
    {
      CountOfRange(n, x);
      assert x in t <==> x in multiset(t);
    }
    forall i, j | 0 <= i < j < |t|
      ensures t[i] != t[j]
    {
      RepeatedCount(t, i, j);
      CountOfRange(n, t[i]);
    }
    forall i | 0 <= i < |t|
      ensures 0 <= t[i] < n
    {
      assert t[i] in t;
    }
  }

  /** The converse of `PermutationFacts`: a sequence without repetitions
      whose values are exactly the cities `0..n-1` is a permutation of them. */
  lemma PermutationFromFacts(t: seq<int>, n: nat)
    requires Distinct(t)
    requires forall x :: x in t <==> 0 <= x < n
    ensures IsPermutation(t, n)
  {
    forall x
      ensures multiset(t)[x] == multiset(Range(n))[x]
    {
      CountOfDistinct(t, x);
      CountOfRange(n, x);
    }
    assert multiset(t) == multiset(Range(n));
  }

  /** The tour with the cities at positions `i` and `j` exchanged (a no-op
      when `i == j`). */
  function Swap(t: Tour, i: int, j: int): (r: Tour)
    requires 0 <= i < |t| && 0 <= j < |t|
    ensures |r| == |t| && r[i] == t[j] && r[j] == t[i]
    ensures forall k :: 0 <= k < |t| && k != i && k != j ==> r[k] == t[k]
    ensures multiset(r) == multiset(t)
  {
    t[i := t[j]][j := t[i]]
  }

  lemma SwapKeepsPermutation(t: Tour, n: nat, i: int, j: int)
    requires IsPermutation(t, n)
    requires 0 <= i < |t| && 0 <= j < |t|
    ensures IsPermutation(Swap(t, i, j), n)
  {
  }

  /** Every city of `t` names a row and a column of `d`. */
  predicate IndexesCities(d: Matrix, t: Tour) {
    IsSquare(d, |d|) && InRange(t, |d|)
  }

  /** The cost of the edge leaving position `i`, wrapping round to the start. */
  function EdgeCost(d: Matrix, t: Tour, i: int): int
    requires IndexesCities(d, t) && 0 <= i < |t|
  {
    d[t[i]][t[(i + 1) % |t|]]
  }

  /** The costs of the edges leaving positions `lo..hi-1`. */
  function EdgeSum(d: Matrix, t: Tour, lo: int, hi: int): int
    requires IndexesCities(d, t) && 0 <= lo <= hi <= |t|
    decreases hi - lo
  {
    if lo == hi then 0 else EdgeCost(d, t, lo) + EdgeSum(d, t, lo + 1, hi)
  }

  /** The modular cyclic tour cost: the sum over `i` of
      `d[t[i]][t[(i + 1) % n]]`. */
  function CyclicCost(d: Matrix, t: Tour): int
    requires IndexesCities(d, t)
  {
    EdgeSum(d, t, 0, |t|)
  }

  /** The costs `d[t[k]][t[k + 1]]` of the consecutive pairs `k` in `lo..hi-1`. */
  function ChainSum(d: Matrix, t: Tour, lo: int, hi: int): int
    requires IndexesCities(d, t) && 0 <= lo <= hi < |t|
    decreases hi - lo
  {
    if lo == hi then 0 else d[t[lo]][t[lo + 1]] + ChainSum(d, t, lo + 1, hi)
  }

  /** The cost as the genetic algorithm computes it: the open chain of
      consecutive pairs, plus the closing edge from the last city back to the
      first. */
  function ChainCost(d: Matrix, t: Tour): int
    requires IndexesCities(d, t) && |t| >= 1
  {
    ChainSum(d, t, 0, |t| - 1) + d[t[|t| - 1]][t[0]]
  }

  lemma {:induction false} EdgeSumSplit(d: Matrix, t: Tour, lo: int, mid: int, hi: int)
    requires IndexesCities(d, t) && 0 <= lo <= mid <= hi <= |t|
    ensures EdgeSum(d, t, lo, hi) == EdgeSum(d, t, lo, mid) + EdgeSum(d, t, mid, hi)
    decreases mid - lo
  {
    if lo < mid {
      EdgeSumSplit(d, t, lo + 1, mid, hi);
    }
  }

  lemma {:induction false} ChainIsEdgeSum(d: Matrix, t: Tour, lo: int, hi: int)
    requires IndexesCities(d, t) && 0 <= lo <= hi < |t|
    ensures ChainSum(d, t, lo, hi) == EdgeSum(d, t, lo, hi)
    decreases hi - lo
  {
    if lo < hi {
      assert (lo + 1) % |t| == lo + 1;
      ChainIsEdgeSum(d, t, lo + 1, hi);
    }
  }

  /** The two ways the sources write the tour cost agree. */
  lemma CostFormsAgree(d: Matrix, t: Tour)
    requires IndexesCities(d, t) && |t| >= 1
    ensures ChainCost(d, t) == CyclicCost(d, t)
  {
    var n := |t|;
    ChainIsEdgeSum(d, t, 0, n - 1);
    EdgeSumSplit(d, t, 0, n - 1, n);
    assert n % n == 0;
    assert EdgeSum(d, t, n - 1, n) == d[t[n - 1]][t[0]];
  }

  /** Two index ranges whose edges cost the same, position by position after
      a shift by `s`, have the same total. */
  lemma {:induction false} EdgeSumShift(d: Matrix, u: Tour, t: Tour, lo: int, hi: int, s: int)
    requires IndexesCities(d, u) && IndexesCities(d, t)
    requires 0 <= lo <= hi <= |u| && 0 <= lo + s && hi + s <= |t|
    requires forall i :: lo <= i < hi ==> EdgeCost(d, u, i) == EdgeCost(d, t, i + s)
    ensures EdgeSum(d, u, lo, hi) == EdgeSum(d, t, lo + s, hi + s)
    decreases hi - lo
  {
    if lo < hi {
      EdgeSumShift(d, u, t, lo + 1, hi, s);
    }
  }

  /** The tour that starts at position `r` of `t` and wraps round. */
  function Rotate(t: Tour, r: int): (u: Tour)
    requires 0 <= r <= |t|
    ensures |u| == |t|
    ensures forall i :: 0 <= i < |t| - r ==> u[i] == t[i + r]
    ensures forall i :: |t| - r <= i < |t| ==> u[i] == t[i + r - |t|]
  {
    t[r..] + t[..r]
  }

  /** The position after `i` on a cycle of length `n`. */
  lemma NextPosition(i: int, n: int)
    requires 0 <= i < n
    ensures (i + 1) % n == if i + 1 < n then i + 1 else 0
  {
    if i + 1 == n {
      assert (i + 1) % n == n % n == 0;
    }
  }

  /** The edge leaving position `i` of a rotated tour is the edge leaving
      position `i + r` (wrapped) of the original. */
  lemma RotatedEdge(d: Matrix, t: Tour, r: int, i: int)
    requires IndexesCities(d, t) && 0 < r < |t| && 0 <= i < |t|
    ensures IndexesCities(d, Rotate(t, r))
    ensures EdgeCost(d, Rotate(t, r), i)
         == EdgeCost(d, t, if i < |t| - r then i + r else i + r - |t|)
  {
    var n := |t|;
    var u := Rotate(t, r);
    var k := if i < n - r then i + r else i + r - n;
    NextPosition(i, n);
    NextPosition(k, n);
    var i' := if i + 1 < n then i + 1 else 0;
    var k' := if k + 1 < n then k + 1 else 0;
    assert u[i] == t[k];
    assert u[i'] == t[k'];
  }

  /** Starting the same cycle at another city does not change its cost. */
  lemma RotationInvariant(d: Matrix, t: Tour, r: int)
    requires IndexesCities(d, t) && 0 <= r <= |t|
    ensures IndexesCities(d, Rotate(t, r))
    ensures CyclicCost(d, Rotate(t, r)) == CyclicCost(d, t)
  {
    var n := |t|;
    var u := Rotate(t, r);
    if r == 0 || r == n {
      assert u == t;
    } else {
      forall i | 0 <= i < n - r
        ensures EdgeCost(d, u, i) == EdgeCost(d, t, i + r)
      {
        RotatedEdge(d, t, r, i);
      }
      forall i | n - r <= i < n
        ensures EdgeCost(d, u, i) == EdgeCost(d, t, i + (r - n))
      {
        RotatedEdge(d, t, r, i);
      }
      EdgeSumSplit(d, u, 0, n - r, n);
      EdgeSumShift(d, u, t, 0, n - r, r);
      EdgeSumShift(d, u, t, n - r, n, r - n);
      EdgeSumSplit(d, t, 0, r, n);
    }
  }

  /** The same cycle walked the other way round. */
  function Reverse(t: Tour): (u: Tour)
    ensures |u| == |t|
    ensures forall i :: 0 <= i < |t| ==> u[i] == t[|t| - 1 - i]
  {
    seq(|t|, i requires 0 <= i < |t| => t[|t| - 1 - i])
  }

  /** Two index ranges whose edges cost the same, position `i` of the first
      against position `c - i` of the second, have the same total. */
  lemma {:induction false} EdgeSumMirror(d: Matrix, u: Tour, t: Tour, lo: int, hi: int, c: int)
    requires IndexesCities(d, u) && IndexesCities(d, t)
    requires 0 <= lo <= hi <= |u| && 0 <= c - hi + 1 && c - lo + 1 <= |t|
    requires forall i :: lo <= i < hi ==> EdgeCost(d, u, i) == EdgeCost(d, t, c - i)
    ensures EdgeSum(d, u, lo, hi) == EdgeSum(d, t, c - hi + 1, c - lo + 1)
    decreases hi - lo
  {
    if lo < hi {
      EdgeSumMirror(d, u, t, lo + 1, hi, c);
      EdgeSumSplit(d, t, c - hi + 1, c - lo, c - lo + 1);
    }
  }

  /** The edge leaving position `i` of a reversed tour is, on a symmetric
      matrix, the edge leaving position `n - 2 - i` of the original, and the
      closing edge stays the closing edge. */
  lemma ReversedEdge(d: Matrix, t: Tour, i: int)
    requires IsDistanceMatrix(d) && IndexesCities(d, t) && 0 <= i < |t|
    ensures IndexesCities(d, Reverse(t))
    ensures EdgeCost(d, Reverse(t), i)
         == EdgeCost(d, t, if i < |t| - 1 then |t| - 2 - i else |t| - 1)
  {
    var n := |t|;
    var u := Reverse(t);
    NextPosition(i, n);
    if i < n - 1 {
      NextPosition(n - 2 - i, n);
      var a, b := t[n - 1 - i], t[n - 2 - i];
      assert EdgeCost(d, u, i) == d[a][b];
      assert EdgeCost(d, t, n - 2 - i) == d[b][a];
    } else {
      var a, b := t[0], t[n - 1];
      assert EdgeCost(d, u, i) == d[a][b];
      assert EdgeCost(d, t, n - 1) == d[b][a];
    }
  }

  /** Walking a cycle the other way round does not change its cost, because
      the matrix is symmetric. */
  lemma ReversalInvariant(d: Matrix, t: Tour)
    requires IsDistanceMatrix(d) && IndexesCities(d, t)
    ensures IndexesCities(d, Reverse(t))
    ensures CyclicCost(d, Reverse(t)) == CyclicCost(d, t)
  {
    var n := |t|;
    var u := Reverse(t);
    assert IndexesCities(d, u) by {
      assert forall i :: 0 <= i < n ==> u[i] == t[n - 1 - i];
    }
    if n > 0 {
      forall i | 0 <= i < n - 1
        ensures EdgeCost(d, u, i) == EdgeCost(d, t, (n - 2) - i)
      {
        ReversedEdge(d, t, i);
      }
      ReversedEdge(d, t, n - 1);
      EdgeSumSplit(d, u, 0, n - 1, n);
      EdgeSumMirror(d, u, t, 0, n - 1, n - 2);
      EdgeSumSplit(d, t, 0, n - 1, n);
    }
  }

  /** Over a single city the only tour is `[0]`, and its one edge is the
      zero diagonal entry, so it costs nothing. */
  lemma SingleCity(d: Matrix)
    requires IsDistanceMatrix(d) && |d| == 1
    ensures IsPermutation([0], 1) && IndexesCities(d, [0]) && CyclicCost(d, [0]) == 0
    ensures forall t :: IsPermutation(t, 1) ==> t == [0]
  {
    assert Range(1) == [0];
    forall t | IsPermutation(t, 1) ensures t == [0] {
      PermutationFacts(t, 1);
    }
    assert EdgeCost(d, [0], 0) == d[0][0];
  }

  /** On a valid matrix every edge of a tour of two or more distinct cities
      costs at least one, so every tour costs at least its length. */
  lemma {:induction false} EdgeSumAtLeastLength(d: Matrix, t: Tour, lo: int, hi: int)
    requires IsDistanceMatrix(d) && |d| >= 2 && IsPermutation(t, |d|)
    requires 0 <= lo <= hi <= |t|
    ensures IndexesCities(d, t)
    ensures EdgeSum(d, t, lo, hi) >= hi - lo
    decreases hi - lo
  {
    PermutationFacts(t, |d|);
    if lo < hi {
      var next := (lo + 1) % |t|;
      assert next != lo;
      assert t[lo] != t[next];
      EdgeSumAtLeastLength(d, t, lo + 1, hi);
    }
  }

  lemma CostPositive(d: Matrix, t: Tour)
    requires IsDistanceMatrix(d) && |d| >= 2 && IsPermutation(t, |d|)
    ensures IndexesCities(d, t)
    ensures CyclicCost(d, t) >= |d| > 0
  {
    PermutationFacts(t, |d|);
    EdgeSumAtLeastLength(d, t, 0, |t|);
  }
}
