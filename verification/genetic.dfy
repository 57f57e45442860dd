/** The operators the two versions of the steady-state genetic algorithm
    share, written identically in both source files: tour fitness, ranking
    by fitness, ordered crossover, the crossover loop over drawn parents and
    swap mutation. Every random draw is an explicit argument. */
module Genetic {
  import opened Numeric
  import opened Tours

  // ---------------------------------------------------------------------
  // Ordered crossover
  // ---------------------------------------------------------------------

  /** The elements of `s` that do not occur in `ex`, in the order of `s`. */
  function Without(s: seq<int>, ex: seq<int>): seq<int>
  {
    if |s| == 0 then []
    else Without(s[..|s| - 1], ex) + (if s[|s| - 1] in ex then [] else [s[|s| - 1]])
  }

  lemma WithoutStep(s: seq<int>, ex: seq<int>, m: int)
    requires 0 <= m < |s|
    ensures Without(s[..m + 1], ex) == Without(s[..m], ex) + (if s[m] in ex then [] else [s[m]])
  {
    assert s[..m + 1][..m] == s[..m];
  }

  lemma {:induction false} WithoutMembers(s: seq<int>, ex: seq<int>, x: int)
    ensures x in Without(s, ex) ==> x in s && x !in ex
  {
    if |s| > 0 {
      WithoutMembers(s[..|s| - 1], ex, x);
      assert s == s[..|s| - 1] + [s[|s| - 1]];
    }
  }

  /** A city outside `ex` occurs in the filtered sequence as often as in `s`. */
  lemma {:induction false} WithoutKeepsCount(s: seq<int>, ex: seq<int>, x: int)
    requires x !in ex
    ensures multiset(Without(s, ex))[x] == multiset(s)[x]
  {
    if |s| > 0 {
      var init, last := s[..|s| - 1], s[|s| - 1];
      WithoutKeepsCount(init, ex, x);
      assert s == init + [last];
      if last !in ex {
        assert Without(s, ex) == Without(init, ex) + [last];
      }
    }
  }

  /** A city of `ex` does not occur in the filtered sequence. */
  lemma {:induction false} WithoutDropsCount(s: seq<int>, ex: seq<int>, x: int)
    requires x in ex
    ensures multiset(Without(s, ex))[x] == 0
  {
    if |s| > 0 {
      var init, last := s[..|s| - 1], s[|s| - 1];
      WithoutDropsCount(init, ex, x);
      if last !in ex {
        assert Without(s, ex) == Without(init, ex) + [last];
      }
    }
  }

  /** Filtering a prefix gives a prefix of the filtered sequence. */
  lemma {:induction false} WithoutPrefix(s: seq<int>, ex: seq<int>, m: int)
    requires 0 <= m <= |s|
    ensures Without(s[..m], ex) <= Without(s, ex)
    decreases |s| - m
  {
    if m < |s| {
      WithoutPrefix(s, ex, m + 1);
      WithoutStep(s, ex, m);
    } else {
      assert s[..m] == s;
    }
  }

  lemma {:induction false} WithoutConcat(a: seq<int>, b: seq<int>, ex: seq<int>)
    ensures Without(a + b, ex) == Without(a, ex) + Without(b, ex)
    decreases |b|
  {
    if |b| == 0 {
      assert a + b == a;
    } else {
      var b' := b[..|b| - 1];
      assert (a + b)[..|a + b| - 1] == a + b';
      WithoutConcat(a, b', ex);
    }
  }

  lemma {:induction false} WithoutNothing(s: seq<int>, ex: seq<int>)
    requires forall k :: 0 <= k < |s| ==> s[k] !in ex
    ensures Without(s, ex) == s
  {
    if |s| > 0 {
      WithoutNothing(s[..|s| - 1], ex);
      assert s == s[..|s| - 1] + [s[|s| - 1]];
    }
  }

  lemma {:induction false} WithoutEverything(s: seq<int>)
    ensures Without(s, s) == []
  {
    forall k | 0 <= k < |s| ensures s[k] in s { }
    WithoutAllListed(s, s);
  }

  lemma {:induction false} WithoutAllListed(s: seq<int>, ex: seq<int>)
    requires forall k :: 0 <= k < |s| ==> s[k] in ex
    ensures Without(s, ex) == []
  {
    if |s| > 0 {
      WithoutAllListed(s[..|s| - 1], ex);
    }
  }

  /** The cities parent 2 contributes, once parent 1's slice is kept, together
      with that slice make up every city exactly once. */
  lemma FillPartition(p1: Tour, p2: Tour, lo: int, hi: int)
    requires IsPermutation(p1, |p1|) && IsPermutation(p2, |p1|)
    requires 0 <= lo <= hi <= |p1|
    ensures multiset(Without(p2, p1[lo..hi])) + multiset(p1[lo..hi]) == multiset(Range(|p1|))
    ensures |Without(p2, p1[lo..hi])| == |p1| - (hi - lo)
  {
    var n := |p1|;
    var slice := p1[lo..hi];
    var fill := Without(p2, slice);
    PermutationFacts(p1, n);
    PermutationFacts(p2, n);
    assert Distinct(slice) by {
      forall i, j | 0 <= i < j < |slice| ensures slice[i] != slice[j] {
        assert slice[i] == p1[lo + i] && slice[j] == p1[lo + j];
      }
    }
    forall x
      ensures (multiset(fill) + multiset(slice))[x] == multiset(Range(n))[x]
    {
      CountOfDistinct(slice, x);
      CountOfRange(n, x);
      if x in slice {
        WithoutDropsCount(p2, slice, x);
        var k :| 0 <= k < |slice| && slice[k] == x;
        assert p1[lo + k] == x;
      } else {
        WithoutKeepsCount(p2, slice, x);
      }
    }
    assert multiset(fill) + multiset(slice) == multiset(Range(n));
    assert |multiset(fill) + multiset(slice)| == |fill| + |slice|;
  }

  /** Ordered crossover as a value: parent 2's cities that are not in parent
      1's slice `[lo, hi)`, in parent 2's order, fill the positions before `lo`
      and from `hi` on; the slice stays where it is. */
  function OxChild(p1: Tour, p2: Tour, lo: int, hi: int): (child: Tour)
    requires IsPermutation(p1, |p1|) && IsPermutation(p2, |p1|)
    requires 0 <= lo <= hi <= |p1|
    ensures |child| == |p1|
    ensures IsPermutation(child, |p1|)
    ensures child[lo..hi] == p1[lo..hi]
    ensures child[..lo] + child[hi..] == Without(p2, p1[lo..hi])
  {
    var fill := Without(p2, p1[lo..hi]);
    FillPartition(p1, p2, lo, hi);
    var child := fill[..lo] + p1[lo..hi] + fill[lo..];
    assert child[..lo] == fill[..lo];
    assert child[lo..hi] == p1[lo..hi];
    assert child[hi..] == fill[lo..];
    assert fill == fill[..lo] + fill[lo..];
    child
  }

  /** `sorted(np.random.randint(0, size, 2))`: the smaller draw is the start
      of the kept slice and the larger its (exclusive) end. */
  function CutStart(a: int, b: int): int { if a <= b then a else b }
  function CutEnd(a: int, b: int): int { if a <= b then b else a }

  /** How many positions before `i` lie outside `[lo, hi)`. */
  function Filled(i: int, lo: int, hi: int): int
  {
    if i <= lo then i else if i <= hi then lo else i - (hi - lo)
  }

  /** The index into the fill list of a position outside `[lo, hi)`. */
  function FillIndex(k: int, lo: int, hi: int): int
  {
    if k < lo then k else k - (hi - lo)
  }

  /** The shape of the child after positions `0..i-1` have been visited:
      the slice holds parent 1's cities, the visited positions outside it
      hold the fill list in order, and the rest still hold the marker `-1`. */
  ghost predicate Placed(child: Tour, p1: Tour, p2: Tour, lo: int, hi: int, i: int)
    requires IsPermutation(p1, |p1|) && IsPermutation(p2, |p1|)
    requires 0 <= lo <= hi <= |p1| && 0 <= i <= |p1|
  {
    && |child| == |p1|
    && (forall k :: lo <= k < hi ==> child[k] == p1[k])
    && (forall k :: 0 <= k < i && !(lo <= k < hi) ==>
          FillIndex(k, lo, hi) < |Without(p2, p1[lo..hi])| &&
          child[k] == Without(p2, p1[lo..hi])[FillIndex(k, lo, hi)])
    && (forall k :: i <= k < |p1| && !(lo <= k < hi) ==> child[k] == -1)
  }

  /** While the scan of parent 2 stands at `ptr` and the part of parent 2
      before `ptr` has supplied exactly the placed fill entries, the city at
      `ptr`, if it is not in the slice, is not in the child yet. */
  lemma NotYetPlaced(child: Tour, p1: Tour, p2: Tour, lo: int, hi: int, i: int, ptr: int)
    requires IsPermutation(p1, |p1|) && IsPermutation(p2, |p1|) && |p2| == |p1|
    requires 0 <= lo <= hi <= |p1| && 0 <= i <= |p1| && 0 <= ptr < |p1|
    requires Placed(child, p1, p2, lo, hi, i)
    requires |Without(p2[..ptr], p1[lo..hi])| == Filled(i, lo, hi)
    ensures p2[ptr] !in p1[lo..hi] ==> p2[ptr] !in child
  {
    var slice := p1[lo..hi];
    var fill := Without(p2, slice);
    var placed := Without(p2[..ptr], slice);
    PermutationFacts(p2, |p1|);
    WithoutPrefix(p2, slice, ptr);
    if p2[ptr] !in slice {
      forall k | 0 <= k < |child|
        ensures child[k] != p2[ptr]
      {
        if lo <= k < hi {
          assert child[k] == slice[k - lo];
        } else if k < i {
          var q := FillIndex(k, lo, hi);
          assert q < |placed|;
          assert child[k] == placed[q];
          WithoutMembers(p2[..ptr], slice, placed[q]);
          var m :| 0 <= m < ptr && p2[..ptr][m] == placed[q];
          assert p2[m] != p2[ptr];
        }
      }
    }
  }

  /** Visiting a slice position changes nothing. */
  lemma SkipSlice(child: Tour, p1: Tour, p2: Tour, lo: int, hi: int, i: int)
    requires IsPermutation(p1, |p1|) && IsPermutation(p2, |p1|)
    requires 0 <= lo <= i < hi <= |p1|
    requires Placed(child, p1, p2, lo, hi, i)
    ensures Placed(child, p1, p2, lo, hi, i + 1)
    ensures Filled(i + 1, lo, hi) == Filled(i, lo, hi)
  {
  }

  /** Writing the next fill entry at a position outside the slice extends
      the placed prefix by one. */
  lemma PlaceNext(child: Tour, p1: Tour, p2: Tour, lo: int, hi: int, i: int, c: int)
    requires IsPermutation(p1, |p1|) && IsPermutation(p2, |p1|)
    requires 0 <= lo <= hi <= |p1| && 0 <= i < |p1| && !(lo <= i < hi)
    requires Placed(child, p1, p2, lo, hi, i)
    requires Filled(i, lo, hi) < |Without(p2, p1[lo..hi])|
    requires c == Without(p2, p1[lo..hi])[Filled(i, lo, hi)]
    ensures Placed(child[i := c], p1, p2, lo, hi, i + 1)
    ensures Filled(i + 1, lo, hi) == Filled(i, lo, hi) + 1
    ensures FillIndex(i, lo, hi) == Filled(i, lo, hi)
  {
  }

  /** Once every position has been visited, the child is the ordered
      crossover. */
  lemma PlacedIsOx(child: Tour, p1: Tour, p2: Tour, lo: int, hi: int)
    requires IsPermutation(p1, |p1|) && IsPermutation(p2, |p1|)
    requires 0 <= lo <= hi <= |p1|
    requires Placed(child, p1, p2, lo, hi, |p1|)
    ensures child == OxChild(p1, p2, lo, hi)
  {
    var expected := OxChild(p1, p2, lo, hi);
    var fill := Without(p2, p1[lo..hi]);
    assert fill == expected[..lo] + expected[hi..];
    forall k | 0 <= k < |p1|
      ensures child[k] == expected[k]
    {
      if k < lo {
        assert expected[k] == expected[..lo][k] == fill[k];
      } else if k >= hi {
        assert expected[k] == expected[hi..][k - hi] == fill[lo + (k - hi)];
      } else {
        assert expected[k] == expected[lo..hi][k - lo];
      }
    }
  }

  /** The scan of parent 2 stands at `ptr` while position `i` waits to be
      filled: what parent 2 has supplied before `ptr` is the placed part of
      the fill list, and possibly the entry just placed, which is then the
      city at `ptr`. */
  ghost predicate ScanAt(child: Tour, p1: Tour, p2: Tour, lo: int, hi: int, i: int, ptr: int)
    requires IsPermutation(p1, |p1|) && IsPermutation(p2, |p1|) && |p2| == |p1|
    requires 0 <= lo <= hi <= |p1| && 0 <= i <= |p1| && 0 <= ptr <= |p1|
  {
    var w := |Without(p2[..ptr], p1[lo..hi])|;
    var f := Filled(i, lo, hi);
    && w <= f <= w + 1
    && (w < f ==> ptr < |p1| && 0 < f <= |Without(p2, p1[lo..hi])|
                  && p2[ptr] == Without(p2, p1[lo..hi])[f - 1] && p2[ptr] in child)
  }

  /** One step of the inner scan: the city at `ptr` is already in the child,
      so moving past it keeps the scan in step with the placed fill entries. */
  lemma ScanStep(child: Tour, p1: Tour, p2: Tour, lo: int, hi: int, i: int, ptr: int)
    requires IsPermutation(p1, |p1|) && IsPermutation(p2, |p1|) && |p2| == |p1|
    requires 0 <= lo <= hi <= |p1| && 0 <= i < |p1| && !(lo <= i < hi) && 0 <= ptr < |p1|
    requires Placed(child, p1, p2, lo, hi, i)
    requires Filled(i, lo, hi) < |Without(p2, p1[lo..hi])|
    requires ScanAt(child, p1, p2, lo, hi, i, ptr)
    requires p2[ptr] in child
    ensures ScanAt(child, p1, p2, lo, hi, i, ptr + 1)
    ensures ptr + 1 < |p1|
    ensures |Without(p2[..ptr + 1], p1[lo..hi])| == Filled(i, lo, hi)
  {
    var slice := p1[lo..hi];
    var fill := Without(p2, slice);
    var f := Filled(i, lo, hi);
    WithoutStep(p2, slice, ptr);
    if |Without(p2[..ptr], slice)| < f {
      WithoutMembers(p2, slice, fill[f - 1]);
    } else {
      NotYetPlaced(child, p1, p2, lo, hi, i, ptr);
    }
    FillPartition(p1, p2, lo, hi);
    assert p2[..|p1|] == p2;
  }

  /** Where the inner scan stops: the city at `ptr` is not in the child, so
      it is the next fill entry. */
  lemma ScanStop(child: Tour, p1: Tour, p2: Tour, lo: int, hi: int, i: int, ptr: int)
    requires IsPermutation(p1, |p1|) && IsPermutation(p2, |p1|) && |p2| == |p1|
    requires 0 <= lo <= hi <= |p1| && 0 <= i < |p1| && !(lo <= i < hi) && 0 <= ptr < |p1|
    requires Placed(child, p1, p2, lo, hi, i)
    requires Filled(i, lo, hi) < |Without(p2, p1[lo..hi])|
    requires ScanAt(child, p1, p2, lo, hi, i, ptr)
    requires p2[ptr] !in child
    ensures |Without(p2[..ptr], p1[lo..hi])| == Filled(i, lo, hi)
    ensures p2[ptr] == Without(p2, p1[lo..hi])[Filled(i, lo, hi)]
  {
    var slice := p1[lo..hi];
    WithoutStep(p2, slice, ptr);
    assert p2[ptr] !in slice by {
      forall k | lo <= k < hi ensures child[k] == slice[k - lo] { }
    }
    WithoutPrefix(p2, slice, ptr + 1);
  }

  /** The inner scan of ordered crossover: advance the pointer into parent 2
      past every city already in the child. It stops at the next fill entry,
      the first city of parent 2 beyond those already placed that is not in
      parent 1's slice. */
  method SkipPlaced(child: Tour, p1: Tour, p2: Tour, lo: int, hi: int, i: int, start: int)
    returns (ptr: int)
    requires IsPermutation(p1, |p1|) && IsPermutation(p2, |p1|) && |p2| == |p1|
    requires 0 <= lo <= hi <= |p1| && 0 <= i < |p1| && !(lo <= i < hi)
    requires 0 <= start <= |p1|
    requires Placed(child, p1, p2, lo, hi, i)
    requires Filled(i, lo, hi) < |Without(p2, p1[lo..hi])|
    requires ScanAt(child, p1, p2, lo, hi, i, start)
    ensures start <= ptr < |p1|
    ensures p2[ptr] !in child
    ensures |Without(p2[..ptr], p1[lo..hi])| == Filled(i, lo, hi)
    ensures p2[ptr] == Without(p2, p1[lo..hi])[Filled(i, lo, hi)]
  {
    FillPartition(p1, p2, lo, hi);
    ptr := start;
    assert ptr < |p1| by {
      assert p2[..|p1|] == p2;
    }
    while p2[ptr] in child
      invariant start <= ptr < |p1|
      invariant ScanAt(child, p1, p2, lo, hi, i, ptr)
      decreases |p1| - ptr
    {
      ScanStep(child, p1, p2, lo, hi, i, ptr);
      ptr := ptr + 1;
    }
    ScanStop(child, p1, p2, lo, hi, i, ptr);
  }

  /** Ordered crossover as the source writes it: keep parent 1's slice
      between the two sorted cut draws, then fill each remaining position,
      left to right, with the next city of parent 2 not already in the
      child, scanning parent 2 with a pointer that never moves back. */
  method OrderedCrossover(p1: Tour, p2: Tour, cutA: int, cutB: int) returns (child: Tour)
    requires IsPermutation(p1, |p1|) && IsPermutation(p2, |p1|)
    requires 0 <= cutA < |p1| && 0 <= cutB < |p1|
    ensures child == OxChild(p1, p2, CutStart(cutA, cutB), CutEnd(cutA, cutB))
    ensures IsPermutation(child, |p1|)
  {
    var size := |p1|;
    var lo, hi := CutStart(cutA, cutB), CutEnd(cutA, cutB);
    child := seq(size, k => if lo <= k < hi then p1[k] else -1);
    var ptr := 0;
    StartScan(child, p1, p2, lo, hi);
    var i := 0;
    while i < size
      invariant 0 <= i <= size && 0 <= ptr <= size
      invariant Placed(child, p1, p2, lo, hi, i)
      invariant ScanAt(child, p1, p2, lo, hi, i, ptr)
    {
      if child[i] == -1 {
        FillLeft(child, p1, p2, lo, hi, i);
        ptr := SkipPlaced(child, p1, p2, lo, hi, i, ptr);
        PlaceAndScan(child, p1, p2, lo, hi, i, ptr);
        child := child[i := p2[ptr]];
      } else {
        SkipSlice(child, p1, p2, lo, hi, i);
      }
      i := i + 1;
    }
    PlacedIsOx(child, p1, p2, lo, hi);
  }

  /** Before the loop: only the slice is written and nothing is scanned. */
  lemma StartScan(child: Tour, p1: Tour, p2: Tour, lo: int, hi: int)
    requires IsPermutation(p1, |p1|) && IsPermutation(p2, |p1|)
    requires 0 <= lo <= hi <= |p1|
    requires child == seq(|p1|, k => if lo <= k < hi then p1[k] else -1)
    ensures |p2| == |p1|
    ensures Placed(child, p1, p2, lo, hi, 0)
    ensures ScanAt(child, p1, p2, lo, hi, 0, 0)
  {
    PermutationFacts(p2, |p1|);
  }

  /** A position that still holds the marker lies outside the slice, and a
      fill entry is waiting for it. */
  lemma FillLeft(child: Tour, p1: Tour, p2: Tour, lo: int, hi: int, i: int)
    requires IsPermutation(p1, |p1|) && IsPermutation(p2, |p1|)
    requires 0 <= lo <= hi <= |p1| && 0 <= i < |p1|
    requires Placed(child, p1, p2, lo, hi, i) && child[i] == -1
    ensures !(lo <= i < hi)
    ensures Filled(i, lo, hi) < |Without(p2, p1[lo..hi])|
  {
    PermutationFacts(p1, |p1|);
    FillPartition(p1, p2, lo, hi);
  }

  /** Writing the city where the scan stopped keeps both loop invariants. */
  lemma PlaceAndScan(child: Tour, p1: Tour, p2: Tour, lo: int, hi: int, i: int, ptr: int)
    requires IsPermutation(p1, |p1|) && IsPermutation(p2, |p1|) && |p2| == |p1|
    requires 0 <= lo <= hi <= |p1| && 0 <= i < |p1| && !(lo <= i < hi) && 0 <= ptr < |p1|
    requires Placed(child, p1, p2, lo, hi, i)
    requires Filled(i, lo, hi) < |Without(p2, p1[lo..hi])|
    requires |Without(p2[..ptr], p1[lo..hi])| == Filled(i, lo, hi)
    requires p2[ptr] == Without(p2, p1[lo..hi])[Filled(i, lo, hi)]
    ensures Placed(child[i := p2[ptr]], p1, p2, lo, hi, i + 1)
    ensures ScanAt(child[i := p2[ptr]], p1, p2, lo, hi, i + 1, ptr)
  {
    PlaceNext(child, p1, p2, lo, hi, i, p2[ptr]);
  }

  /** Equal cut draws keep an empty slice, and the child is parent 2. */
  lemma OxEqualCuts(p1: Tour, p2: Tour, lo: int)
    requires IsPermutation(p1, |p1|) && IsPermutation(p2, |p1|)
    requires 0 <= lo <= |p1|
    ensures OxChild(p1, p2, lo, lo) == p2
  {
    WithoutNothing(p2, p1[lo..lo]);
    var child := OxChild(p1, p2, lo, lo);
    assert child == child[..lo] + child[lo..lo] + child[lo..];
  }

  /** Removing a tour's own slice from it leaves the cities around the
      slice, in order. */
  lemma WithoutOwnSlice(p: Tour, lo: int, hi: int)
    requires Distinct(p)
    requires 0 <= lo <= hi <= |p|
    ensures Without(p, p[lo..hi]) == p[..lo] + p[hi..]
  {
    WithoutUpToSliceEnd(p, lo, hi);
    WithoutAfterSlice(p, lo, hi);
    WithoutSplit(p, p[lo..hi], hi);
  }

  lemma WithoutSplit(s: seq<int>, ex: seq<int>, m: int)
    requires 0 <= m <= |s|
    ensures Without(s, ex) == Without(s[..m], ex) + Without(s[m..], ex)
  {
    assert s[..m] + s[m..] == s;
    WithoutConcat(s[..m], s[m..], ex);
  }

  lemma WithoutUpToSliceEnd(p: Tour, lo: int, hi: int)
    requires Distinct(p)
    requires 0 <= lo <= hi <= |p|
    ensures Without(p[..hi], p[lo..hi]) == p[..lo]
  {
    var b := p[lo..hi];
    WithoutBeforeSlice(p, lo, hi);
    assert p[..lo] + b == p[..hi];
    WithoutConcat(p[..lo], b, b);
    WithoutEverything(b);
    assert p[..lo] + [] == p[..lo];
  }

  lemma WithoutBeforeSlice(p: Tour, lo: int, hi: int)
    requires Distinct(p)
    requires 0 <= lo <= hi <= |p|
    ensures Without(p[..lo], p[lo..hi]) == p[..lo]
  {
    OutsideAvoidsSlice(p, lo, hi);
    forall k | 0 <= k < lo ensures p[..lo][k] !in p[lo..hi] {
      assert p[..lo][k] == p[k];
    }
    WithoutNothing(p[..lo], p[lo..hi]);
  }

  lemma WithoutAfterSlice(p: Tour, lo: int, hi: int)
    requires Distinct(p)
    requires 0 <= lo <= hi <= |p|
    ensures Without(p[hi..], p[lo..hi]) == p[hi..]
  {
    OutsideAvoidsSlice(p, lo, hi);
    forall k | 0 <= k < |p| - hi ensures p[hi..][k] !in p[lo..hi] {
      assert p[hi..][k] == p[hi + k];
    }
    WithoutNothing(p[hi..], p[lo..hi]);
  }

  /** In a tour without repetitions no city outside a slice occurs in it. */
  lemma OutsideAvoidsSlice(p: Tour, lo: int, hi: int)
    requires Distinct(p)
    requires 0 <= lo <= hi <= |p|
    ensures forall k :: 0 <= k < |p| && !(lo <= k < hi) ==> p[k] !in p[lo..hi]
  {
    forall k | 0 <= k < |p| && !(lo <= k < hi) ensures p[k] !in p[lo..hi] {
      forall m | 0 <= m < hi - lo ensures p[lo..hi][m] != p[k] {
        assert p[lo..hi][m] == p[lo + m];
      }
    }
  }

  /** Crossing a tour with itself gives it back, whatever the cuts. */
  lemma OxSelf(p: Tour, lo: int, hi: int)
    requires IsPermutation(p, |p|)
    requires 0 <= lo <= hi <= |p|
    ensures OxChild(p, p, lo, hi) == p
  {
    PermutationFacts(p, |p|);
    WithoutOwnSlice(p, lo, hi);
    var child := OxChild(p, p, lo, hi);
    assert child == child[..lo] + child[lo..hi] + child[hi..];
    assert child[..lo] == p[..lo] && child[hi..] == p[hi..];
    assert p == p[..lo] + p[lo..hi] + p[hi..];
  }

  // ---------------------------------------------------------------------
  // Crossover loop and mutation
  // ---------------------------------------------------------------------

  /** Every row is a permutation of `0..n-1` (and so has length `n`). */
  predicate AllPermutations(pop: seq<Tour>, n: nat) {
    forall k :: 0 <= k < |pop| ==> |pop[k]| == n && IsPermutation(pop[k], n)
  }

  /** The draws behind one child: two parent indices (with replacement) and
      the two raw cut points. */
  datatype CrossoverDraw = CrossoverDraw(first: int, second: int, cutA: int, cutB: int)

  /** What `np.random.randint` can return for these draws. */
  predicate ValidCrossoverDraws(draws: seq<CrossoverDraw>, numParents: int, n: int) {
    forall k :: 0 <= k < |draws| ==>
      && 0 <= draws[k].first < numParents && 0 <= draws[k].second < numParents
      && 0 <= draws[k].cutA < n && 0 <= draws[k].cutB < n
  }

  /** `crossover`: one ordered-crossover child per draw. */
  function Crossover(parents: seq<Tour>, n: nat, draws: seq<CrossoverDraw>): (children: seq<Tour>)
    requires AllPermutations(parents, n)
    requires ValidCrossoverDraws(draws, |parents|, n)
    ensures |children| == |draws|
    ensures AllPermutations(children, n)
    ensures forall k :: 0 <= k < |draws| ==>
              children[k] == OxChild(parents[draws[k].first], parents[draws[k].second],
                                     CutStart(draws[k].cutA, draws[k].cutB), CutEnd(draws[k].cutA, draws[k].cutB))
  {
    seq(|draws|, k requires 0 <= k < |draws| && ValidCrossoverDraws(draws, |parents|, n)
                             && AllPermutations(parents, n) =>
      var dr := draws[k];
      OxChild(parents[dr.first], parents[dr.second], CutStart(dr.cutA, dr.cutB), CutEnd(dr.cutA, dr.cutB)))
  }

  /** The draws behind one child's mutation: the coin `np.random.rand()`
      and the two positions, which are only drawn when the coin falls below
      the rate. */
  datatype MutationDraw = MutationDraw(coin: real, i: int, j: int)

  /** A coin in `[0, 1)` and two positions in `[0, n)` per child. */
  predicate ValidMutationDraws(draws: seq<MutationDraw>, n: int) {
    forall k :: 0 <= k < |draws| ==>
      0.0 <= draws[k].coin < 1.0 && 0 <= draws[k].i < n && 0 <= draws[k].j < n
  }

  /** `mutate`: each child whose coin falls below the rate has the cities at
      its two drawn positions exchanged; every other child is left as it is. */
  function Mutate(children: seq<Tour>, n: nat, rate: real, draws: seq<MutationDraw>): (r: seq<Tour>)
    requires |draws| == |children|
    requires forall k :: 0 <= k < |children| ==> |children[k]| == n
    requires ValidMutationDraws(draws, n)
    ensures |r| == |children|
    ensures forall k :: 0 <= k < |r| ==> |r[k]| == n && multiset(r[k]) == multiset(children[k])
    ensures forall k :: 0 <= k < |children| && draws[k].coin >= rate ==> r[k] == children[k]
    ensures forall k :: 0 <= k < |children| && draws[k].coin < rate ==>
              r[k] == Swap(children[k], draws[k].i, draws[k].j)
  {
    seq(|children|, k requires 0 <= k < |children| && |children[k]| == n && ValidMutationDraws(draws, n) =>
      if draws[k].coin < rate then Swap(children[k], draws[k].i, draws[k].j) else children[k])
  }

  /** Mutation keeps every child a permutation. */
  lemma MutateKeepsPermutations(children: seq<Tour>, n: nat, rate: real, draws: seq<MutationDraw>)
    requires AllPermutations(children, n)
    requires |draws| == |children|
    requires ValidMutationDraws(draws, n)
    ensures forall k :: 0 <= k < |children| ==> |children[k]| == n
    ensures AllPermutations(Mutate(children, n, rate, draws), n)
  {
    forall k | 0 <= k < |children| ensures |children[k]| == n {
      PermutationFacts(children[k], n);
    }
  }

  // ---------------------------------------------------------------------
  // Fitness, ranking and the best tour of a population
  // ---------------------------------------------------------------------

  /** The tours a solver may be handed on a valid matrix of two or more
      cities. */
  predicate ValidPopulation(d: Matrix, pop: seq<Tour>) {
    IsDistanceMatrix(d) && |d| >= 2 && AllPermutations(pop, |d|)
  }

  /** The fitness of one tour: the reciprocal of the cost the genetic
      algorithm computes, chain plus closing edge. */
  function Fitness(d: Matrix, t: Tour): (f: real)
    requires IsDistanceMatrix(d) && |d| >= 2 && IsPermutation(t, |d|)
    ensures IndexesCities(d, t)
    ensures CyclicCost(d, t) > 0
    ensures f > 0.0 && f == 1.0 / (CyclicCost(d, t) as real)
  {
    PermutationFacts(t, |d|);
    CostFormsAgree(d, t);
    CostPositive(d, t);
    1.0 / (ChainCost(d, t) as real)
  }

  /** `evaluate_fitness`: the fitness of every tour of the population. */
  function EvaluateFitness(d: Matrix, pop: seq<Tour>): (fit: seq<real>)
    requires ValidPopulation(d, pop)
    ensures |fit| == |pop|
    ensures forall k :: 0 <= k < |pop| ==> fit[k] == Fitness(d, pop[k])
  {
    seq(|pop|, k requires 0 <= k < |pop| => Fitness(d, pop[k]))
  }

  /** `np.argmax`: the first position of a largest value. */
  function ArgMax(xs: seq<real>): (m: int)
    requires |xs| > 0
    ensures 0 <= m < |xs|
    ensures forall k :: 0 <= k < |xs| ==> xs[k] <= xs[m]
    ensures forall k :: 0 <= k < m ==> xs[k] < xs[m]
  {
    if |xs| == 1 then 0
    else
      var m := ArgMax(xs[..|xs| - 1]);
      if xs[|xs| - 1] > xs[m] then |xs| - 1 else m
  }

  /** The lowest cyclic cost in a non-empty population. */
  function MinCost(d: Matrix, pop: seq<Tour>): (m: int)
    requires |pop| > 0
    requires forall k :: 0 <= k < |pop| ==> IndexesCities(d, pop[k])
    ensures forall k :: 0 <= k < |pop| ==> m <= CyclicCost(d, pop[k])
    ensures exists k :: 0 <= k < |pop| && m == CyclicCost(d, pop[k])
  {
    if |pop| == 1 then CyclicCost(d, pop[0])
    else
      var rest := MinCost(d, pop[1..]);
      assert forall k :: 1 <= k < |pop| ==> pop[1..][k - 1] == pop[k];
      if CyclicCost(d, pop[0]) <= rest then CyclicCost(d, pop[0]) else rest
  }

  lemma PopulationIndexesCities(d: Matrix, pop: seq<Tour>)
    requires ValidPopulation(d, pop)
    ensures forall k :: 0 <= k < |pop| ==> IndexesCities(d, pop[k])
  {
    forall k | 0 <= k < |pop| ensures IndexesCities(d, pop[k]) {
      PermutationFacts(pop[k], |d|);
    }
  }

  /** The least cost of a non-empty population of tours. */
  function LeastCost(d: Matrix, pop: seq<Tour>): (m: int)
    requires ValidPopulation(d, pop) && |pop| > 0
    ensures forall k :: 0 <= k < |pop| ==> IndexesCities(d, pop[k]) && m <= CyclicCost(d, pop[k])
    ensures exists k :: 0 <= k < |pop| && m == CyclicCost(d, pop[k])
  {
    PopulationIndexesCities(d, pop);
    MinCost(d, pop)
  }

  /** A tour of largest fitness is a tour of least cost, so the reported
      `1 / max(fitness)` is the least cost in the population. */
  lemma FittestIsCheapest(d: Matrix, pop: seq<Tour>, best: int)
    requires ValidPopulation(d, pop) && |pop| > 0
    requires 0 <= best < |pop|
    requires forall k :: 0 <= k < |pop| ==> EvaluateFitness(d, pop)[k] <= EvaluateFitness(d, pop)[best]
    ensures forall k :: 0 <= k < |pop| ==> IndexesCities(d, pop[k])
    ensures CyclicCost(d, pop[best]) == LeastCost(d, pop)
    ensures 1.0 / EvaluateFitness(d, pop)[best] == LeastCost(d, pop) as real
  {
    PopulationIndexesCities(d, pop);
    var fit := EvaluateFitness(d, pop);
    var c := CyclicCost(d, pop[best]);
    forall k | 0 <= k < |pop|
      ensures c <= CyclicCost(d, pop[k])
    {
      assert fit[k] <= fit[best];
      ReciprocalAntitone(CyclicCost(d, pop[k]) as real, c as real);
    }
    ReciprocalInvolution(c as real);
  }

  /** The trace entry of one generation: `1 / fitness[argmax(fitness)]`. */
  function BestDistance(fit: seq<real>): real
    requires |fit| > 0 && fit[ArgMax(fit)] != 0.0
  {
    1.0 / fit[ArgMax(fit)]
  }

  /** The recorded best distance is the least cost of the evaluated
      population. */
  lemma BestDistanceIsLeastCost(d: Matrix, pop: seq<Tour>)
    requires ValidPopulation(d, pop) && |pop| > 0
    ensures forall k :: 0 <= k < |pop| ==> IndexesCities(d, pop[k])
    ensures BestDistance(EvaluateFitness(d, pop)) == LeastCost(d, pop) as real
  {
    FittestIsCheapest(d, pop, ArgMax(EvaluateFitness(d, pop)));
  }

  /** `xs[s[0]] >= xs[s[1]] >= ...`: the indices `s` in descending order of
      their values. */
  predicate SortedDesc(xs: seq<real>, s: seq<int>) {
    InRange(s, |xs|) && forall i, j :: 0 <= i < j < |s| ==> xs[s[i]] >= xs[s[j]]
  }

  /** Insert index `k` into a descending ranking, before the first index whose
      value is not larger. */
  function InsertDesc(xs: seq<real>, k: int, s: seq<int>): (r: seq<int>)
    requires 0 <= k < |xs| && SortedDesc(xs, s)
    ensures multiset(r) == multiset(s) + multiset{k}
    ensures |r| == |s| + 1
    ensures SortedDesc(xs, r)
  {
    if |s| == 0 then [k]
    else if xs[s[0]] > xs[k] then
      var rest := InsertDesc(xs, k, s[1..]);
      KeepHead(xs, s, k, rest);
      [s[0]] + rest
    else
      PutFirst(xs, s, k);
      [k] + s
  }

  /** Putting the head back in front of the rest (with `k` inserted) keeps
      the order and the contents. */
  lemma KeepHead(xs: seq<real>, s: seq<int>, k: int, rest: seq<int>)
    requires 0 <= k < |xs| && SortedDesc(xs, s) && |s| > 0 && xs[s[0]] > xs[k]
    requires SortedDesc(xs, rest) && multiset(rest) == multiset(s[1..]) + multiset{k}
    ensures SortedDesc(xs, [s[0]] + rest)
    ensures multiset([s[0]] + rest) == multiset(s) + multiset{k}
  {
    HeadDominates(xs, s, k, rest);
    assert s == [s[0]] + s[1..];
    assert multiset([s[0]] + rest) == multiset{s[0]} + multiset(rest);
    var r := [s[0]] + rest;
    forall i, j | 0 <= i < j < |r| ensures xs[r[i]] >= xs[r[j]] {
      if i > 0 {
        assert r[i] == rest[i - 1] && r[j] == rest[j - 1];
      } else {
        assert r[j] == rest[j - 1];
      }
    }
  }

  /** An index at least as valuable as the head goes first. */
  lemma PutFirst(xs: seq<real>, s: seq<int>, k: int)
    requires 0 <= k < |xs| && SortedDesc(xs, s) && |s| > 0 && xs[s[0]] <= xs[k]
    ensures SortedDesc(xs, [k] + s)
  {
    var r := [k] + s;
    forall i, j | 0 <= i < j < |r| ensures xs[r[i]] >= xs[r[j]] {
      if i > 0 {
        assert r[i] == s[i - 1] && r[j] == s[j - 1];
      } else if j > 1 {
        assert r[j] == s[j - 1] && xs[s[0]] >= xs[s[j - 1]];
      }
    }
  }

  /** The head of a descending ranking that beats `k` beats everything in
      the rest of the ranking with `k` inserted. */
  lemma HeadDominates(xs: seq<real>, s: seq<int>, k: int, rest: seq<int>)
    requires 0 <= k < |xs| && SortedDesc(xs, s) && |s| > 0 && xs[s[0]] > xs[k]
    requires InRange(rest, |xs|) && multiset(rest) == multiset(s[1..]) + multiset{k}
    ensures forall j :: 0 <= j < |rest| ==> xs[s[0]] >= xs[rest[j]]
  {
    forall j | 0 <= j < |rest| ensures xs[s[0]] >= xs[rest[j]] {
      assert rest[j] in multiset(rest);
      if rest[j] != k {
        assert rest[j] in multiset(s[1..]);
        var m :| 0 <= m < |s[1..]| && s[1..][m] == rest[j];
        assert s[1 + m] == rest[j];
      }
    }
  }

  /** The indices `0..m-1` ranked by descending value. */
  function RankPrefix(xs: seq<real>, m: nat): (r: seq<int>)
    requires m <= |xs|
    ensures IsPermutation(r, m)
    ensures SortedDesc(xs, r)
  {
    if m == 0 then []
    else
      assert Range(m) == Range(m - 1) + [m - 1];
      InsertDesc(xs, m - 1, RankPrefix(xs, m - 1))
  }

  /** `np.argsort(fitness)[::-1]`: every index once, by descending fitness.
      Among equal values the later index comes first, as a stable ascending
      sort read backwards gives. */
  function RankDescending(xs: seq<real>): (r: seq<int>)
    ensures IsPermutation(r, |xs|)
    ensures SortedDesc(xs, r)
  {
    RankPrefix(xs, |xs|)
  }

  /** The first index of the ranking has the largest value, and every index
      ranked at or after position `count` is no better than any ranked
      before it. */
  lemma RankingFacts(xs: seq<real>, count: int)
    requires |xs| > 0 && 0 <= count <= |xs|
    ensures |RankDescending(xs)| == |xs| && InRange(RankDescending(xs), |xs|)
    ensures forall k :: 0 <= k < |xs| ==> xs[k] <= xs[RankDescending(xs)[0]]
    ensures forall i, j :: 0 <= i < count <= j < |xs| ==>
              xs[RankDescending(xs)[j]] <= xs[RankDescending(xs)[i]]
  {
    var r := RankDescending(xs);
    PermutationFacts(r, |xs|);
    forall k | 0 <= k < |xs| ensures xs[k] <= xs[r[0]] {
      assert k in r;
      var p :| 0 <= p < |r| && r[p] == k;
      if p > 0 {
        assert xs[r[0]] >= xs[r[p]];
      }
    }
  }

  /** The `count` rows of highest fitness, best first. */
  function Elites(pop: seq<Tour>, fit: seq<real>, count: int): (e: seq<Tour>)
    requires |fit| == |pop| && 0 <= count <= |pop|
    ensures |e| == count
  {
    var rank := RankDescending(fit);
    PermutationFacts(rank, |fit|);
    seq(count, i requires 0 <= i < count => pop[rank[i]])
  }

  /** Elite `i` is the row ranked `i`-th by fitness. */
  lemma ElitesAreRanked(pop: seq<Tour>, fit: seq<real>, count: int)
    requires |fit| == |pop| && 0 <= count <= |pop|
    ensures forall i :: 0 <= i < count ==>
              0 <= RankDescending(fit)[i] < |pop| && Elites(pop, fit, count)[i] == pop[RankDescending(fit)[i]]
  {
    PermutationFacts(RankDescending(fit), |fit|);
  }

  /** The elites are distinct rows of the population in descending order of
      fitness, the first of them a fittest row, and no row left out is fitter
      than any elite. */
  lemma ElitesAreFittest(pop: seq<Tour>, fit: seq<real>, count: int)
    requires |fit| == |pop| && 0 <= count <= |pop|
    ensures exists idx: seq<int> ::
              && |idx| == count && InRange(idx, |pop|) && Distinct(idx)
              && (forall i :: 0 <= i < count ==> Elites(pop, fit, count)[i] == pop[idx[i]])
              && (forall i, j :: 0 <= i < j < count ==> fit[idx[j]] <= fit[idx[i]])
              && (count > 0 ==> forall k :: 0 <= k < |pop| ==> fit[k] <= fit[idx[0]])
              && (forall i, k :: 0 <= i < count && 0 <= k < |pop| && k !in idx ==> fit[k] <= fit[idx[i]])
  {
    var rank := RankDescending(fit);
    var idx := rank[..count];
    TopOfRanking(fit, count);
    assert forall i :: 0 <= i < count ==> Elites(pop, fit, count)[i] == pop[idx[i]];
  }

  /** The first `count` indices of the ranking: distinct, in descending order
      of value, and ahead of every index left out. */
  lemma TopOfRanking(xs: seq<real>, count: int)
    requires 0 <= count <= |xs|
    ensures var idx := RankDescending(xs)[..count];
              && |idx| == count && InRange(idx, |xs|) && Distinct(idx)
              && (forall i, j :: 0 <= i < j < count ==> xs[idx[j]] <= xs[idx[i]])
              && (count > 0 ==> forall k :: 0 <= k < |xs| ==> xs[k] <= xs[idx[0]])
              && (forall i, k :: 0 <= i < count && 0 <= k < |xs| && k !in idx ==> xs[k] <= xs[idx[i]])
  {
    var rank := RankDescending(xs);
    PermutationFacts(rank, |xs|);
    var idx := rank[..count];
    if |xs| > 0 {
      RankingFacts(xs, count);
      forall i, k | 0 <= i < count && 0 <= k < |xs| && k !in idx
        ensures xs[k] <= xs[idx[i]]
      {
        assert k in rank;
        var j :| 0 <= j < |rank| && rank[j] == k;
      }
    }
  }

  /** The rows at the drawn indices, in draw order. */
  function RowsAt(pop: seq<Tour>, picks: seq<int>): (rows: seq<Tour>)
    requires InRange(picks, |pop|)
    ensures |rows| == |picks|
    ensures forall i :: 0 <= i < |picks| ==> rows[i] == pop[picks[i]]
  {
    seq(|picks|, i requires 0 <= i < |picks| => pop[picks[i]])
  }

  /** What `np.random.choice(size, count, replace=False)` can return. */
  predicate DistinctPicks(picks: seq<int>, size: int, count: int) {
    |picks| == count && InRange(picks, size) && Distinct(picks)
  }

  /** The replacement step: the parents followed by their mutated children. */
  function Breed(parents: seq<Tour>, n: nat, rate: real,
                 crossovers: seq<CrossoverDraw>, mutations: seq<MutationDraw>): (next: seq<Tour>)
    requires AllPermutations(parents, n)
    requires ValidCrossoverDraws(crossovers, |parents|, n)
    requires |mutations| == |crossovers|
    requires ValidMutationDraws(mutations, n)
    ensures |next| == |parents| + |crossovers|
    ensures next[..|parents|] == parents
    ensures AllPermutations(next, n)
    ensures next[|parents|..] == Mutate(Crossover(parents, n, crossovers), n, rate, mutations)
  {
    var children := Crossover(parents, n, crossovers);
    MutateKeepsPermutations(children, n, rate, mutations);
    parents + Mutate(children, n, rate, mutations)
  }
}
