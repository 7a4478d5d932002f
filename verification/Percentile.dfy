/** The interpolated percentile of the runtime baseline, over the reals. */
module Percentile {
  import opened Wrappers
  import opened Sorting

  predicate RealLe(x: real, y: real) { x <= y }

  lemma RealOrderIsTotal()
    ensures TotalOrder(RealLe)
  {
  }

  function Ceil(x: real): (n: int)
    ensures (n as real) - 1.0 < x <= n as real
  {
    if x.Floor as real == x then x.Floor else x.Floor + 1
  }

  /** The value at a position of a sorted list, interpolated between its neighbours. */
  function At(xs: seq<real>, pos: real): (y: real)
    requires 0.0 <= pos <= (|xs| - 1) as real
  {
    var lo, hi := pos.Floor, Ceil(pos);
    if lo == hi then xs[lo] else xs[lo] * (hi as real - pos) + xs[hi] * (pos - lo as real)
  }

  function Position(n: nat, q: real): (pos: real)
    requires n > 0 && 0.0 <= q <= 1.0
    ensures 0.0 <= pos <= (n - 1) as real
  {
    var d := (n - 1) as real;
    assert 0.0 <= d * q <= d by { Scale(d, 0.0, q); Scale(d, q, 1.0); }
    d * q
  }

  lemma Scale(d: real, p: real, q: real)
    requires d >= 0.0 && p <= q
    ensures d * p <= d * q
  {
    assert d * q - d * p == d * (q - p);
  }

  lemma PositionMonotone(n: nat, p: real, q: real)
    requires n > 0 && 0.0 <= p <= q <= 1.0
    ensures Position(n, p) <= Position(n, q)
  {
    Scale((n - 1) as real, p, q);
  }

  function Percentile(values: seq<real>, q: real): (p: Option<real>)
    requires 0.0 <= q <= 1.0
  {
    var xs := Sort(RealLe, values);
    if xs == [] then None
    else if |xs| == 1 then Some(xs[0])
    else Some(At(xs, Position(|xs|, q)))
  }

  lemma Interpolate(x: real, y: real, s: real, t: real)
    requires x <= y && s <= t
    ensures x * (1.0 - s) + y * s <= x * (1.0 - t) + y * t
  {
    var d := y - x;
    Scale(d, s, t);
    assert x * (1.0 - s) + y * s == x + d * s;
    assert x * (1.0 - t) + y * t == x + d * t;
  }

  /** Inside one gap the interpolation is between the neighbours. */
  lemma AtInGap(xs: seq<real>, pos: real)
    requires SortedBy(RealLe, xs) && 0.0 <= pos <= (|xs| - 1) as real
    ensures xs[pos.Floor] <= At(xs, pos) <= xs[Ceil(pos)]
  {
    var lo, hi := pos.Floor, Ceil(pos);
    if lo != hi {
      assert RealLe(xs[lo], xs[hi]);
      var t := pos - lo as real;
      Interpolate(xs[lo], xs[hi], 0.0, t);
      Interpolate(xs[lo], xs[hi], t, 1.0);
      assert hi as real - pos == 1.0 - t;
    }
  }

  lemma AtMonotone(xs: seq<real>, p: real, q: real)
    requires SortedBy(RealLe, xs) && 0.0 <= p <= q <= (|xs| - 1) as real
    ensures At(xs, p) <= At(xs, q)
  {
    AtInGap(xs, p);
    AtInGap(xs, q);
    var lo, hi := p.Floor, Ceil(p);
    if hi <= q.Floor {
      assert hi == q.Floor || RealLe(xs[hi], xs[q.Floor]);
    } else if lo as real != p {
      // p and q lie in the same gap
      assert q.Floor == lo && Ceil(q) == hi;
      assert RealLe(xs[lo], xs[hi]);
      var s, t := p - lo as real, q - lo as real;
      Interpolate(xs[lo], xs[hi], s, t);
      assert hi as real - p == 1.0 - s && hi as real - q == 1.0 - t;
    }
  }

  /** Between two neighbours the percentile divides the gap as the position does. */
  lemma PercentileBetweenKnots(values: seq<real>, q: real, k: nat)
    requires 0.0 <= q <= 1.0 && k + 1 < |values| && k as real <= (|values| - 1) as real * q <= (k + 1) as real
    ensures var xs, p := Sort(RealLe, values), Percentile(values, q);
      p.Some? && p.value - xs[k] == ((|values| - 1) as real * q - k as real) * (xs[k + 1] - xs[k])
  {
    hide Sort;
    var xs := Sort(RealLe, values);
    var pos := Position(|xs|, q);
    if pos == k as real {
    } else if pos == (k + 1) as real {
    } else {
      assert pos.Floor == k && Ceil(pos) == k + 1;
      var t := pos - k as real;
      assert xs[k] * (1.0 - t) + xs[k + 1] * t - xs[k] == t * (xs[k + 1] - xs[k]);
    }
  }

  /** At a whole position the percentile is that element of the sorted list. */
  lemma PercentileAtKnot(values: seq<real>, q: real, k: nat)
    requires 0.0 <= q <= 1.0 && k < |values| && (|values| - 1) as real * q == k as real
    ensures Percentile(values, q) == Some(Sort(RealLe, values)[k])
  {
    hide Sort;
    var xs := Sort(RealLe, values);
    assert Position(|xs|, q) == k as real;
    assert (k as real).Floor == k;
  }

  /** No value is reported only for no values; otherwise the percentile grows with q ... */
  lemma PercentileMonotone(values: seq<real>, p: real, q: real)
    requires 0.0 <= p <= q <= 1.0
    ensures Percentile(values, p).None? <==> values == []
    ensures values != [] ==> Percentile(values, p).value <= Percentile(values, q).value
  {
    hide TotalOrder, Sort, At, SortedBy, Position;
    RealOrderIsTotal();
    SortSorts(RealLe, values);
    var xs := Sort(RealLe, values);
    if |xs| > 1 {
      PositionMonotone(|xs|, p, q);
      AtMonotone(xs, Position(|xs|, p), Position(|xs|, q));
    }
  }

  lemma SortedBounds(xs: seq<real>, x: real)
    requires SortedBy(RealLe, xs) && x in xs
    ensures xs[0] <= x <= xs[|xs| - 1]
  {
    var i :| 0 <= i < |xs| && xs[i] == x;
    assert i == 0 || RealLe(xs[0], xs[i]);
    assert i == |xs| - 1 || RealLe(xs[i], xs[|xs| - 1]);
  }

  /** ... from the least of the values to the greatest. */
  lemma PercentileExtremes(values: seq<real>, x: real)
    requires x in values
    ensures Percentile(values, 0.0).value <= x <= Percentile(values, 1.0).value
    ensures Percentile(values, 0.0).value in values && Percentile(values, 1.0).value in values
  {
    hide TotalOrder, Sort, Percentile, SortedBy;
    RealOrderIsTotal();
    SortSorts(RealLe, values);
    var xs := Sort(RealLe, values);
    PercentileAtKnot(values, 0.0, 0);
    PercentileAtKnot(values, 1.0, |values| - 1);
    assert x in multiset(xs) && xs[0] in multiset(values) && xs[|xs| - 1] in multiset(values);
    SortedBounds(xs, x);
  }

  lemma PercentileOfPermutation(a: seq<real>, b: seq<real>, q: real)
    requires 0.0 <= q <= 1.0 && multiset(a) == multiset(b)
    ensures Percentile(a, q) == Percentile(b, q)
  {
    RealOrderIsTotal();
    SortDependsOnMultiset(RealLe, a, b);
  }
}
