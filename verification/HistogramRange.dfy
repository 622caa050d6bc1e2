/**
 Laying out and extending the range of histogram bins: uniform bins, new bins before and after
 the existing ones, and the exact stopping rule of extendBinsTo().
 */
module HistogramRange {
  import opened HistogramModel

  function Ceil(x: real): int
  {
    -((-x).Floor)
  }

  /** k steps, as repeated addition; the same as the product. */
  function Times(step: real, k: nat): real
  {
    if k == 0 then 0.0 else Times(step, k - 1) + step
  }

  lemma {:induction false} TimesIsProduct(step: real, k: nat)
    ensures Times(step, k) == step * k as real
  {
    if k > 0 {
      TimesIsProduct(step, k - 1);
      assert step * k as real == step * (k - 1) as real + step;
    }
  }

  lemma {:induction false} TimesIsMonotonic(step: real, i: nat, j: nat)
    requires step > 0.0 && i < j
    ensures Times(step, i) + step <= Times(step, j)
  {
    if i < j - 1 {
      TimesIsMonotonic(step, i, j - 1);
    }
  }

  lemma TimesOfQuotient(step: real, d: real, k: nat)
    requires step > 0.0
    ensures k as real >= d / step <==> Times(step, k) >= d
    ensures k as real > d / step <==> Times(step, k) > d
  {
    TimesIsProduct(step, k);
    var q := d / step;
    assert q * step == d;
    var x := k as real - q;
    assert Times(step, k) - d == step * x;
    assert x > 0.0 ==> step * x > 0.0;
    assert x < 0.0 ==> step * -x > 0.0;
  }

  // ---------------------------------------------------------------- uniform bins

  /** Work-around for imprecision near zero. */
  function Snap(edge: real, step: real): real
  {
    if -step * 0.0000000001 < edge < step * 0.0000000001 then 0.0 else edge
  }

  function UniformCount(lo: real, hi: real, step: real): int
    requires step > 0.0
  {
    Ceil((hi - lo) * (1.0 - 0.0000000001) / step)
  }

  function UniformEdges(lo: real, step: real, n: nat): seq<real>
  {
    seq(n, i requires 0 <= i < n => Snap(lo + Times(step, i), step))
  }

  lemma UniformEdgesIncrease(lo: real, step: real, n: nat)
    requires step > 0.0
    ensures Increasing(UniformEdges(lo, step, n))
  {
    var r := UniformEdges(lo, step, n);
    forall i, j | 0 <= i < j < |r|
      ensures r[i] < r[j]
    {
      TimesIsMonotonic(step, i, j);
      SnapKeepsOrder(lo + Times(step, i), lo + Times(step, j), step);
    }
  }

  lemma SnapKeepsOrder(a: real, b: real, step: real)
    requires step > 0.0 && a + step <= b
    ensures Snap(a, step) < Snap(b, step)
  {
  }

  lemma UniformCountIsPositive(lo: real, hi: real, step: real)
    requires lo < hi && step > 0.0
    ensures UniformCount(lo, hi, step) >= 1
  {
    var x := (hi - lo) * (1.0 - 0.0000000001);
    assert x > 0.0;
    TimesOfQuotient(step, x, 0);
    assert x / step > 0.0;
  }

  /** The last edge that createUniformBins() makes. */
  function LastEdge(lo: real, hi: real, step: real): real
    requires lo < hi && step > 0.0
  {
    UniformCountIsPositive(lo, hi, step);
    var n := UniformCount(lo, hi, step);
    UniformEdges(lo, step, n + 1)[n]
  }

  /** An edge within 1e-10 steps of zero becomes zero. */
  predicate NearZero(x: real, step: real)
  {
    -step * 0.0000000001 < x < step * 0.0000000001
  }

  /** Edge i is i steps above the lower bound, but zero if that is within 1e-10 steps of zero. */
  lemma UniformEdgeAt(lo: real, step: real, n: nat, i: nat)
    requires i < n
    ensures var x := lo + step * i as real;
            UniformEdges(lo, step, n)[i] == if NearZero(x, step) then 0.0 else x
  {
    TimesIsProduct(step, i);
  }

  /** There are just enough steps to cover the range but for 1e-10 of it. */
  lemma UniformCountIsLeast(lo: real, hi: real, step: real)
    requires lo < hi && step > 0.0
    ensures var n, x := UniformCount(lo, hi, step), (hi - lo) * (1.0 - 0.0000000001);
            n >= 1 && Times(step, n - 1) < x <= Times(step, n)
  {
    var n, x := UniformCount(lo, hi, step), (hi - lo) * (1.0 - 0.0000000001);
    UniformCountIsPositive(lo, hi, step);
    TimesOfQuotient(step, x, n);
    TimesOfQuotient(step, x, n - 1);
  }

  lemma ShavedCount(lo: real, hi: real, step: real)
    requires lo < hi && step > 0.0
    ensures var n := UniformCount(lo, hi, step);
            && n >= 1 && lo + Times(step, n) >= hi - (hi - lo) * 0.0000000001
            && (lo + Times(step, n) >= hi <==> Ceil((hi - lo) / step) <= n)
  {
    var d := hi - lo;
    var x := d * (1.0 - 0.0000000001);
    var n := UniformCount(lo, hi, step);
    UniformCountIsPositive(lo, hi, step);
    TimesOfQuotient(step, x, n);
    TimesOfQuotient(step, d, n);
  }

  /** chistogram.h says that the last edge is at or above hi. The shaving of the range and the
      snapping to zero, both against imprecision, make that false; this is when it holds, and by
      how much it can fail. */
  lemma LastEdgeReachesHi(lo: real, hi: real, step: real)
    requires lo < hi && step > 0.0
    ensures var n := UniformCount(lo, hi, step);
            && n >= 1
            && (LastEdge(lo, hi, step) >= hi <==>
                  if NearZero(lo + Times(step, n), step) then hi <= 0.0 else Ceil((hi - lo) / step) <= n)
            && LastEdge(lo, hi, step) > hi - (hi - lo + step) * 0.0000000001
  {
    ShavedCount(lo, hi, step);
  }

  lemma LastEdgeMissesHi()
    ensures LastEdge(0.0, 1.00000000001, 1.0) == 1.0 < 1.00000000001
    ensures LastEdge(-0.99999999999, 0.00000000001, 1.0) == 0.0 < 0.00000000001
  {
    OneBinOnly(0.0, 1.00000000001);
    OneBinOnly(-0.99999999999, 0.00000000001);
  }

  lemma OneBinOnly(lo: real, hi: real)
    requires 0.0 < hi - lo <= 1.00000000005
    ensures LastEdge(lo, hi, 1.0) == Snap(lo + 1.0, 1.0)
  {
    UniformCountIsPositive(lo, hi, 1.0);
    assert Times(1.0, 1) == 1.0;
  }

  // ---------------------------------------------------------------- more bins on either side

  function Prepended(b: Bins, edges: seq<real>): Bins
  {
    b.(edges := edges + b.edges, values := Zeros(|edges|) + b.values)
  }

  function Appended(b: Bins, edges: seq<real>): Bins
  {
    b.(edges := b.edges + edges, values := b.values + Zeros(|edges|))
  }

  lemma PrependKeepsTotal(b: Bins, edges: seq<real>)
    requires Sane(b) && b.edges != [] && Increasing(edges)
    requires edges != [] ==> edges[|edges| - 1] < b.edges[0]
    ensures Sane(Prepended(b, edges)) && Total(Prepended(b, edges)) == Total(b)
  {
    SumConcat(Zeros(|edges|), b.values);
    SumOfZeros(|edges|);
    var r := edges + b.edges;
    forall i, j | 0 <= i < j < |r|
      ensures r[i] < r[j]
    {
      if i < |edges| <= j {
        assert edges[i] <= edges[|edges| - 1] < b.edges[0] <= b.edges[j - |edges|];
      }
    }
  }

  lemma AppendKeepsTotal(b: Bins, edges: seq<real>)
    requires Sane(b) && b.edges != [] && Increasing(edges)
    requires edges != [] ==> b.edges[|b.edges| - 1] < edges[0]
    ensures Sane(Appended(b, edges)) && Total(Appended(b, edges)) == Total(b)
  {
    SumConcat(b.values, Zeros(|edges|));
    SumOfZeros(|edges|);
    var r, n := b.edges + edges, |b.edges|;
    forall i, j | 0 <= i < j < |r|
      ensures r[i] < r[j]
    {
      if i < n <= j {
        assert b.edges[i] <= b.edges[n - 1] < edges[0] <= edges[j - n];
      }
    }
  }

  // ---------------------------------------------------------------- extending to a value

  function First(b: Bins): real
    requires b.edges != []
  {
    b.edges[0]
  }

  function Last(b: Bins): real
    requires b.edges != []
  {
    b.edges[|b.edges| - 1]
  }

  predicate Covers(b: Bins, v: real)
    requires b.edges != []
  {
    First(b) <= v < Last(b)
  }

  /** extendBinsTo(), downward: one bin after the other. */
  function ExtendedDown(b: Bins, v: real, step: real, maxNumBins: int): (r: Bins)
    requires b.edges != []
    ensures r.edges != []
    decreases maxNumBins - |b.values|
  {
    if v < First(b) && |b.values| < maxNumBins then ExtendedDown(Prepended(b, [First(b) - step]), v, step, maxNumBins)
    else b
  }

  function ExtendedUp(b: Bins, v: real, step: real, maxNumBins: int): (r: Bins)
    requires b.edges != []
    ensures r.edges != []
    decreases maxNumBins - |b.values|
  {
    if v >= Last(b) && |b.values| < maxNumBins then ExtendedUp(Appended(b, [Last(b) + step]), v, step, maxNumBins)
    else b
  }

  function Extended(b: Bins, v: real, step: real, maxNumBins: int): (r: Bins)
    requires b.edges != []
    ensures r.edges != []
  {
    ExtendedUp(ExtendedDown(b, v, step, maxNumBins), v, step, maxNumBins)
  }

  /** What an extension may do: add empty bins of width step outside the old ones, no further than
      the value needs. */
  ghost predicate ExtendedFrom(b: Bins, r: Bins, v: real, step: real, maxNumBins: int)
    requires b.edges != []
  {
    && Sane(r) && r.edges != [] && Total(r) == Total(b) && r.under == b.under && r.over == b.over
    && |b.values| <= |r.values| <= (if |b.values| < maxNumBins then maxNumBins else |b.values|)
    && First(r) <= First(b) && Last(b) <= Last(r)
    && Last(r) - First(r) == Last(b) - First(b) + Times(step, |r.values| - |b.values|)
    && (First(r) != First(b) ==> v < First(r) + step) && (Last(r) != Last(b) ==> v >= Last(r) - step)
    && (v >= First(b) ==> First(r) == First(b)) && (v < Last(b) ==> Last(r) == Last(b))
    && (First(b) <= v < Last(b) ==> r == b)
  }

  lemma OneBinBelow(b: Bins, step: real)
    requires Sane(b) && b.edges != [] && step > 0.0
    ensures var r := Prepended(b, [First(b) - step]);
            && Sane(r) && r.edges != [] && Total(r) == Total(b) && r.under == b.under && r.over == b.over
            && First(r) == First(b) - step && Last(r) == Last(b) && |r.values| == |b.values| + 1
  {
    PrependKeepsTotal(b, [First(b) - step]);
  }

  lemma OneBinAbove(b: Bins, step: real)
    requires Sane(b) && b.edges != [] && step > 0.0
    ensures var r := Appended(b, [Last(b) + step]);
            && Sane(r) && r.edges != [] && Total(r) == Total(b) && r.under == b.under && r.over == b.over
            && First(r) == First(b) && Last(r) == Last(b) + step && |r.values| == |b.values| + 1
  {
    AppendKeepsTotal(b, [Last(b) + step]);
  }

  lemma {:induction false} ExtendDownExact(b: Bins, v: real, step: real, maxNumBins: int)
    requires Sane(b) && b.edges != [] && step > 0.0
    ensures var r := ExtendedDown(b, v, step, maxNumBins);
            && ExtendedFrom(b, r, v, step, maxNumBins)
            && (v >= First(r) || |r.values| >= maxNumBins) && (v >= First(b) ==> r == b) && Last(r) == Last(b)
    decreases maxNumBins - |b.values|
  {
    if v < First(b) && |b.values| < maxNumBins {
      OneBinBelow(b, step);
      ExtendDownExact(Prepended(b, [First(b) - step]), v, step, maxNumBins);
    }
  }

  lemma {:induction false} ExtendUpExact(b: Bins, v: real, step: real, maxNumBins: int)
    requires Sane(b) && b.edges != [] && step > 0.0
    ensures var r := ExtendedUp(b, v, step, maxNumBins);
            && ExtendedFrom(b, r, v, step, maxNumBins)
            && (v < Last(r) || |r.values| >= maxNumBins) && (v < Last(b) ==> r == b) && First(r) == First(b)
    decreases maxNumBins - |b.values|
  {
    if v >= Last(b) && |b.values| < maxNumBins {
      OneBinAbove(b, step);
      ExtendUpExact(Appended(b, [Last(b) + step]), v, step, maxNumBins);
    }
  }

  /** The stopping rule: bins are added until the value is covered or the limit is reached, no
      more than that, none when the value is covered already. */
  lemma ExtendStopsExactly(b: Bins, v: real, step: real, maxNumBins: int)
    requires Sane(b) && b.edges != [] && step > 0.0
    ensures var r := Extended(b, v, step, maxNumBins);
            && ExtendedFrom(b, r, v, step, maxNumBins)
            && (Covers(r, v) || |r.values| >= maxNumBins)
  {
    ExtendDownExact(b, v, step, maxNumBins);
    ExtendUpExact(ExtendedDown(b, v, step, maxNumBins), v, step, maxNumBins);
    FirstBeforeLast(b);
  }

  lemma FirstBeforeLast(b: Bins)
    requires Sane(b) && b.edges != []
    ensures First(b) < Last(b)
  {
  }

  /** k edges, step apart, that end just before left. */
  function EdgesBelow(left: real, step: real, k: nat): seq<real>
  {
    seq(k, i requires 0 <= i < k => left - Times(step, k - i))
  }

  /** k edges, step apart, that start just after right. */
  function EdgesAbove(right: real, step: real, k: nat): seq<real>
  {
    seq(k, i requires 0 <= i < k => right + Times(step, i + 1))
  }

  lemma BelowShifts(left: real, step: real, k: nat, edges: seq<real>)
    ensures EdgesBelow(left - step, step, k) + ([left - step] + edges) == EdgesBelow(left, step, k + 1) + edges
  {
    var l, r := EdgesBelow(left - step, step, k) + [left - step], EdgesBelow(left, step, k + 1);
    forall i | 0 <= i < |l|
      ensures l[i] == r[i]
    {
      assert Times(step, k + 1 - i) == Times(step, k - i) + step;
    }
    assert l == r;
    assert l + edges == EdgesBelow(left - step, step, k) + ([left - step] + edges);
  }

  lemma AboveShifts(right: real, step: real, k: nat, edges: seq<real>)
    ensures edges + [right + step] + EdgesAbove(right + step, step, k) == edges + EdgesAbove(right, step, k + 1)
  {
    var l, r := [right + step] + EdgesAbove(right + step, step, k), EdgesAbove(right, step, k + 1);
    forall i | 0 <= i < |l|
      ensures l[i] == r[i]
    {
      assert Times(step, i + 1) == Times(step, i) + step;
    }
    assert l == r;
    assert edges + l == edges + [right + step] + EdgesAbove(right + step, step, k);
  }

  /** What was counted stays where it was: the old bins stand after k new ones, which are empty and
      whose edges are multiples of step away from the old first edge. */
  lemma {:induction false} ExtendDownForm(b: Bins, v: real, step: real, maxNumBins: int)
    requires b.edges != []
    ensures var r := ExtendedDown(b, v, step, maxNumBins);
            && |r.values| >= |b.values|
            && r.edges == EdgesBelow(First(b), step, |r.values| - |b.values|) + b.edges
            && r.values == Zeros(|r.values| - |b.values|) + b.values
    decreases maxNumBins - |b.values|
  {
    if v < First(b) && |b.values| < maxNumBins {
      var b' := Prepended(b, [First(b) - step]);
      ExtendDownForm(b', v, step, maxNumBins);
      var k := |ExtendedDown(b, v, step, maxNumBins).values| - |b'.values|;
      BelowShifts(First(b), step, k, b.edges);
      assert Zeros(k) + (Zeros(1) + b.values) == Zeros(k + 1) + b.values;
    } else {
      assert EdgesBelow(First(b), step, 0) + b.edges == b.edges && Zeros(0) + b.values == b.values;
    }
  }

  lemma {:induction false} ExtendUpForm(b: Bins, v: real, step: real, maxNumBins: int)
    requires b.edges != []
    ensures var r := ExtendedUp(b, v, step, maxNumBins);
            && |r.values| >= |b.values|
            && r.edges == b.edges + EdgesAbove(Last(b), step, |r.values| - |b.values|)
            && r.values == b.values + Zeros(|r.values| - |b.values|)
    decreases maxNumBins - |b.values|
  {
    if v >= Last(b) && |b.values| < maxNumBins {
      var b' := Appended(b, [Last(b) + step]);
      ExtendUpForm(b', v, step, maxNumBins);
      var k := |ExtendedUp(b, v, step, maxNumBins).values| - |b'.values|;
      AboveShifts(Last(b), step, k, b.edges);
      assert b.values + Zeros(1) + Zeros(k) == b.values + Zeros(k + 1);
    } else {
      assert b.edges + EdgesAbove(Last(b), step, 0) == b.edges && b.values + Zeros(0) == b.values;
    }
  }
}
