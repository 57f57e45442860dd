/** Numeric helpers shared by the solvers: Python's `math.ceil`, floor
    division `//`, `max` on reals, and facts about reciprocals that relate a
    fitness `1/cost` back to its cost, and the records of best values the
    solvers keep, which never rise. */
module Numeric {

  /** `math.ceil` on a real: the least integer not below `x`. */
  function Ceil(x: real): (c: int)
    ensures (c as real) - 1.0 < x <= c as real
  {
    -((-x).Floor)
  }

  /** Python's floor division `a // b` (rounds toward minus infinity). */
  function FloorDiv(a: int, b: int): (q: int)
    requires b != 0
    ensures (q as real) <= (a as real) / (b as real) < (q as real) + 1.0
  {
    ((a as real) / (b as real)).Floor
  }

  /** `max(a, b)` on reals. */
  function MaxReal(a: real, b: real): (m: real)
    ensures m >= a && m >= b
    ensures m == a || m == b
  {
    if a >= b then a else b
  }

  /** The product of two non-negative reals is non-negative. */
  lemma ProductNonNegative(a: real, b: real)
    requires a >= 0.0 && b >= 0.0
    ensures a * b >= 0.0
  {
  }

  /** The ceiling of a whole number is that number. */
  lemma CeilOfInt(k: int)
    ensures Ceil(k as real) == k
  {
  }

  /** For non-negative numerators and a positive divisor, floor division
      agrees with Dafny's `/`. */
  lemma FloorDivNonNegative(a: int, b: int)
    requires a >= 0 && b > 0
    ensures FloorDiv(a, b) == a / b
  {
    var q := a / b;
    var r := a % b;
    assert a == b * q + r && 0 <= r < b;
    assert (a as real) / (b as real) == (q as real) + (r as real) / (b as real);
    assert 0.0 <= (r as real) / (b as real) < 1.0;
  }

  /** Taking reciprocals reverses the order of positive reals. */
  lemma ReciprocalAntitone(a: real, b: real)
    requires a > 0.0 && b > 0.0
    ensures 1.0 / a >= 1.0 / b <==> a <= b
    ensures 1.0 / a > 1.0 / b <==> a < b
  {
    assert 1.0 / a - 1.0 / b == (b - a) / (a * b);
  }

  /** The reciprocal of the reciprocal is the number itself. */
  lemma ReciprocalInvolution(a: real)
    requires a != 0.0
    ensures 1.0 / (1.0 / a) == a
  {
  }

  /** A record that never rises. */
  predicate NonIncreasing(xs: seq<int>) {
    forall g, h :: 0 <= g <= h < |xs| ==> xs[h] <= xs[g]
  }

  /** Appending a value no larger than the last one keeps a record
      non-increasing. */
  lemma AppendKeepsNonIncreasing(xs: seq<int>, x: int)
    requires NonIncreasing(xs)
    requires |xs| > 0 ==> x <= xs[|xs| - 1]
    ensures NonIncreasing(xs + [x])
  {
    var ys := xs + [x];
    forall g, h | 0 <= g <= h < |ys| ensures ys[h] <= ys[g] {
      if h == |xs| && g < |xs| {
        assert ys[g] == xs[g] && xs[|xs| - 1] <= xs[g];
      }
    }
  }

  /** A record `b` of best values kept beside a record `c` of current
      values, where each step keeps the best or lowers it to the current
      value, holds the running minimum of `c`. */
  lemma {:induction false} RunningMinimum(b: seq<int>, c: seq<int>, k: nat)
    requires |b| == |c| > k && b[0] == c[0]
    requires forall i :: 0 < i < |b| ==> b[i] <= b[i - 1] && b[i] <= c[i] && (b[i] == b[i - 1] || b[i] == c[i])
    ensures forall m :: 0 <= m <= k ==> b[k] <= c[m]
    ensures exists m :: 0 <= m <= k && b[k] == c[m]
    decreases k
  {
    if k > 0 {
      RunningMinimum(b, c, k - 1);
      if b[k] == b[k - 1] {
        var w :| 0 <= w <= k - 1 && b[k - 1] == c[w];
        assert b[k] == c[w];
      } else {
        assert b[k] == c[k];
      }
    } else {
      assert b[0] == c[0];
    }
  }
}
