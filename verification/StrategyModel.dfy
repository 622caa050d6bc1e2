/**
 The decisions of the default histogram strategy: the first layout of the bins, and how the range
 is extended to a new value while the number of bins stays bounded.
 */
module StrategyModel {
  import opened HistogramModel
  import opened HistogramRange
  import opened HistogramRounding
  import opened EvenBins
  import opened HistogramReplay

  function Max(a: real, b: real): real
  {
    if a < b then b else a
  }

  function MinOf(a: real, b: real): real
  {
    if a < b then a else b
  }

  /** More bins than this are reduced to the target. */
  function BinLimit(target: nat): nat
  {
    target * 3 / 2
  }

  /** The range that takes in the value as well. */
  function NewRange(b: Bins, v: real): real
    requires b.edges != []
  {
    Max(v, Last(b)) - MinOf(v, First(b))
  }

  /** The bin size that spreads the new range over the wanted number of bins. */
  function ApproxBinSize(b: Bins, v: real, target: nat): real
    requires b.edges != [] && target > 0
  {
    NewRange(b, v) / target as real
  }

  lemma ApproxIsPositive(b: Bins, v: real, target: nat)
    requires b.edges != [] && Span(b) > 0.0 && target > 0
    ensures ApproxBinSize(b, v, target) > 0.0
    ensures Times(ApproxBinSize(b, v, target), target) == NewRange(b, v)
  {
    var x := NewRange(b, v);
    assert x > 0.0;
    QuotientTimes(x, target as real);
    TimesIsProduct(ApproxBinSize(b, v, target), target);
  }

  /** The value lies outside on a side where outliers (infinite ones count) bar an extension. */
  predicate Refused(b: Bins, v: real, under: bool, over: bool)
    requires b.edges != []
  {
    (v < First(b) && under) || (v >= Last(b) && over)
  }

  ghost function Stretched(b: Bins, s: real, target: nat, under: bool, over: bool, v: real): (Bins, real)
    requires Even(b, s) && target > 0 && !(under && over)
  {
    SpanIsCount(b, s);
    ApproxIsPositive(b, v, target);
    var approx := ApproxBinSize(b, v, target);
    if approx >= Span(b) then AllInOne(b, approx, under, over) else (b, s)
  }

  /** cDefaultHistogramStrategy::extendBinsTo(). */
  ghost function ExtendTo(b: Bins, s: real, target: nat, under: bool, over: bool, v: real): (Bins, real)
    requires Even(b, s) && target > 0
  {
    FirstBeforeLast(b);
    if Covers(b, v) || Refused(b, v, under, over) then (b, s)
    else
      var (b1, s1) := Stretched(b, s, target, under && v >= Last(b), over && v < First(b), v);
      StretchedOk(b, s, target, under && v >= Last(b), over && v < First(b), v);
      var b2 := Extended(b1, v, s1, INT_MAX);
      ExtendedOk(b1, v, s1);
      Capped(b2, s1, target)
  }

  lemma StretchedOk(b: Bins, s: real, target: nat, under: bool, over: bool, v: real)
    requires Even(b, s) && target > 0 && !(under && over)
    ensures var (r, s') := Stretched(b, s, target, under, over, v);
            && Even(r, s') && Total(r) == Total(b) && r.under == b.under && r.over == b.over
            && First(r) <= First(b) && Last(b) <= Last(r)
  {
    SpanIsCount(b, s);
    ApproxIsPositive(b, v, target);
    var approx := ApproxBinSize(b, v, target);
    if approx >= Span(b) {
      AllInOneIsOneBin(b, approx, under, over);
    }
  }

  lemma ExtendedOk(b: Bins, v: real, s: real)
    requires Even(b, s)
    ensures var r := Extended(b, v, s, INT_MAX);
            && Even(r, s) && ExtendedFrom(b, r, v, s, INT_MAX) && (Covers(r, v) || |r.values| >= INT_MAX)
  {
    ExtendStopsExactly(b, v, s, INT_MAX);
    EvenDown(b, v, s, INT_MAX);
    EvenUp(ExtendedDown(b, v, s, INT_MAX), v, s, INT_MAX);
  }

  // ---------------------------------------------------------------- how many bins it takes

  lemma {:induction false} TimesBound(s: real, k: nat, x: real, n: nat)
    requires s > 0.0 && Times(s, k) <= x && x < Times(s, n)
    ensures k < n
  {
    if k > n {
      TimesIsMonotonic(s, n, k);
    }
  }

  lemma {:induction false} TimesAdds(s: real, a: nat, b: nat)
    ensures Times(s, a + b) == Times(s, a) + Times(s, b)
  {
    if b > 0 {
      TimesAdds(s, a, b - 1);
    }
  }

  lemma {:induction false} TimesOfProduct(s: real, a: nat, b: nat)
    ensures Times(s, a * b) == Times(Times(s, b), a)
  {
    if a > 0 {
      TimesOfProduct(s, a - 1, b);
      assert a * b == (a - 1) * b + b;
      TimesAdds(s, (a - 1) * b, b);
    }
  }

  lemma {:induction false} TimesGrows(x: real, y: real, n: nat)
    requires x <= y
    ensures Times(x, n) <= Times(y, n) && (x < y && n > 0 ==> Times(x, n) < Times(y, n))
  {
    if n > 0 {
      TimesGrows(x, y, n - 1);
    }
  }

  lemma SpanGrowth(b: Bins, r: Bins, v: real, s: real)
    requires b.edges != [] && s > 0.0 && ExtendedFrom(b, r, v, s, INT_MAX) && First(b) < Last(b)
    ensures Span(r) <= NewRange(b, v) + s
  {
  }

  lemma CountBelow(s: real, k: nat, n: nat, x: real)
    requires s > 0.0 && Times(s, k) == x && x < Times(s, n) + s
    ensures k <= n
  {
    TimesBound(s, k, x, n + 1);
  }

  /** Extending by bins of size s stops as soon as the value is covered, so it takes few of them. */
  lemma FewBins(b: Bins, s: real, v: real, n: nat)
    requires Even(b, s) && NewRange(b, v) < Times(s, n)
    ensures |Extended(b, v, s, INT_MAX).values| <= n
  {
    var r := Extended(b, v, s, INT_MAX);
    ExtendedOk(b, v, s);
    SpanIsCount(b, s);
    SpanIsCount(r, s);
    SpanGrowth(b, r, v, s);
    CountBelow(s, |r.values|, n, Span(r));
  }

  lemma SnappedRange(b: Bins, r: Bins, v: real, s: real)
    requires b.edges != [] && r.edges != [] && First(b) < Last(b)
    requires First(b) - s <= First(r) <= First(b) && Last(b) <= Last(r) && Span(r) == s
    ensures NewRange(r, v) <= NewRange(b, v) + s
  {
  }

  /** Where the 32-bit default limit of extendBinsTo() cannot be the reason to stop. */
  predicate Ample(target: int)
  {
    0 < target <= 20000
  }

  lemma ProductBound(target: nat, n: nat)
    requires Ample(target) && n <= 4 * target + 2
    ensures target * n < INT_MAX
  {
    assert target * n <= 20000 * n;
  }

  lemma OneBinReaches(b: Bins, s: real, target: nat, under: bool, over: bool, v: real)
    requires Even(b, s) && Ample(target) && !(under && over)
    requires ApproxBinSize(b, v, target) >= Span(b) > 0.0
    ensures var (b1, s1) := AllInOne(b, ApproxBinSize(b, v, target), under, over);
            Even(b1, s1) && |Extended(b1, v, s1, INT_MAX).values| < INT_MAX
  {
    var approx := ApproxBinSize(b, v, target);
    AllInOneIsOneBin(b, approx, under, over);
    var (b1, s1) := AllInOne(b, approx, under, over);
    ApproxIsPositive(b, v, target);
    FirstBeforeLast(b);
    SpanIsCount(b1, s1);
    assert Times(s1, 1) == s1 by { TimesIsProduct(s1, 1); }
    SnappedRange(b, b1, v, s1);
    // NewRange(b, v) is target times approx, hence at most 4 * target times s1
    var four := Times(s1, 4);
    assert four == s1 + s1 + s1 + s1 by { TimesIsProduct(s1, 4); }
    TimesGrows(approx, four, target);
    TimesOfProduct(s1, target, 4);
    FewBins(b1, s1, v, target * 4 + 2);
  }

  lemma EnoughAsTheyAre(b: Bins, s: real, target: nat, v: real)
    requires Even(b, s) && Ample(target) && |b.values| <= 4 * target + 2
    requires ApproxBinSize(b, v, target) < Span(b)
    ensures |Extended(b, v, s, INT_MAX).values| < INT_MAX
  {
    SpanIsCount(b, s);
    ApproxIsPositive(b, v, target);
    TimesGrows(ApproxBinSize(b, v, target), Span(b), target);
    TimesOfProduct(s, target, |b.values|);
    FewBins(b, s, v, target * |b.values|);
    ProductBound(target, |b.values|);
  }

  lemma StretchedReaches(b: Bins, s: real, target: nat, under: bool, over: bool, v: real)
    requires Even(b, s) && Ample(target) && |b.values| <= 4 * target + 2 && !(under && over)
    ensures var (b1, s1) := Stretched(b, s, target, under, over, v);
            Even(b1, s1) && |Extended(b1, v, s1, INT_MAX).values| < INT_MAX
  {
    SpanIsCount(b, s);
    ApproxIsPositive(b, v, target);
    if ApproxBinSize(b, v, target) >= Span(b) {
      OneBinReaches(b, s, target, under, over, v);
    } else {
      EnoughAsTheyAre(b, s, target, v);
    }
  }

  // ---------------------------------------------------------------- what an extension achieves

  ghost function Capped(b: Bins, s: real, target: nat): (Bins, real)
    requires Even(b, s) && target > 0
  {
    if |b.values| > BinLimit(target) then Reduced(b, s, target) else (b, s)
  }

  lemma CappedOk(b: Bins, s: real, target: nat)
    requires Even(b, s) && target > 0
    ensures var (r, s') := Capped(b, s, target);
            && Even(r, s') && Total(r) == Total(b) && r.under == b.under && r.over == b.over
            && First(r) == First(b) && Last(b) <= Last(r) && |r.values| <= BinLimit(target)
  {
    if |b.values| > BinLimit(target) {
      ReduceMeetsLimit(b, s, target);
    }
  }

  /** Bins stay even and bounded in number, nothing is lost, and the value ends up covered unless
      outliers on its side forbid it. */
  lemma ExtendToAchieves(b: Bins, s: real, target: nat, under: bool, over: bool, v: real)
    requires Even(b, s) && Ample(target) && |b.values| <= 4 * target + 2
    ensures var (r, s') := ExtendTo(b, s, target, under, over, v);
            && Even(r, s') && Total(r) == Total(b) && r.under == b.under && r.over == b.over
            && First(r) <= First(b) && Last(b) <= Last(r)
            && ((r == b && s' == s) || |r.values| <= BinLimit(target))
            && (Covers(r, v) <==> !Refused(b, v, under, over))
  {
    FirstBeforeLast(b);
    if !Covers(b, v) && !Refused(b, v, under, over) {
      var u, o := under && v >= Last(b), over && v < First(b);
      var (b1, s1) := Stretched(b, s, target, u, o, v);
      StretchedOk(b, s, target, u, o, v);
      StretchedReaches(b, s, target, u, o, v);
      ExtendedOk(b1, v, s1);
      CappedOk(Extended(b1, v, s1, INT_MAX), s1, target);
    }
  }

  lemma StretchedHolds(b: Bins, s: real, target: nat, under: bool, over: bool, v: real, seen: seq<Observation>)
    requires Even(b, s) && target > 0 && !(under && over) && Holds(b, seen)
    ensures Holds(Stretched(b, s, target, under, over, v).0, seen)
  {
    SpanIsCount(b, s);
    ApproxIsPositive(b, v, target);
    var approx := ApproxBinSize(b, v, target);
    if approx >= Span(b) {
      HoldsAllInOne(b, approx, under, over, seen);
    }
  }

  lemma ExtendedHolds(b: Bins, v: real, s: real, seen: seq<Observation>)
    requires Even(b, s) && Holds(b, seen)
    ensures Holds(Extended(b, v, s, INT_MAX), seen)
  {
    HoldsDown(b, v, s, INT_MAX, seen);
    EvenDown(b, v, s, INT_MAX);
    HoldsUp(ExtendedDown(b, v, s, INT_MAX), v, s, INT_MAX, seen);
  }

  /** An extension never changes what the histogram holds. */
  lemma ExtendToHolds(b: Bins, s: real, target: nat, under: bool, over: bool, v: real, seen: seq<Observation>)
    requires Even(b, s) && target > 0 && Holds(b, seen)
    ensures Holds(ExtendTo(b, s, target, under, over, v).0, seen)
  {
    FirstBeforeLast(b);
    if !Covers(b, v) && !Refused(b, v, under, over) {
      var u, o := under && v >= Last(b), over && v < First(b);
      var (b1, s1) := Stretched(b, s, target, u, o, v);
      StretchedOk(b, s, target, u, o, v);
      StretchedHolds(b, s, target, u, o, v, seen);
      ExtendedOk(b1, v, s1);
      ExtendedHolds(b1, v, s1, seen);
      var b2 := Extended(b1, v, s1, INT_MAX);
      if |b2.values| > BinLimit(target) {
        HoldsReduced(b2, s1, target, seen);
      }
    }
  }

  // ---------------------------------------------------------------- what an extension does

  /** The range from the value to the far end of the bins. */
  function RangeTo(b: Bins, v: real): real
    requires b.edges != []
  {
    if v < First(b) then Last(b) - v else v - First(b)
  }

  /** Bins b, of width s, were extended to r by empty ones of that width, just far enough for v. */
  ghost predicate JustReaches(b: Bins, r: Bins, v: real, s: real)
    requires b.edges != [] && r.edges != []
  {
    && Covers(r, v)
    && (exists k: nat, n: nat :: First(r) == First(b) - Times(s, k) && Last(r) == Last(b) + Times(s, n))
    && (if v < First(b) then v < First(r) + s else First(r) == First(b))
    && (if v >= Last(b) then v >= Last(r) - s else Last(r) == Last(b))
  }

  /** n bins in groups of g meet the target, and in smaller groups they would not. */
  predicate LeastGroup(n: nat, g: nat, target: nat)
  {
    g >= 1 && n <= target * g && target * (g - 1) < n
  }

  predicate MergedInto(b: Bins, r: Bins, s: real, target: nat)
    requires b.edges != [] && r.edges != []
  {
    First(r) == First(b) && Last(b) <= Last(r) < Last(b) + s && |r.values| <= target
  }

  /** More bins than one and a half times the target are merged in groups just large enough to meet
      the target; fewer stay as they are. */
  ghost predicate MergedIfMany(b: Bins, s: real, r: Bins, s': real, target: nat)
    requires b.edges != [] && r.edges != []
  {
    var n := |b.values|;
    if 2 * n <= 3 * target then r == b && s' == s
    else exists g: nat :: s' == Times(s, g) && LeastGroup(n, g, target) && MergedInto(b, r, s', target)
  }

  lemma CappedIsMerged(b: Bins, s: real, target: nat)
    requires Even(b, s) && target > 0
    ensures var (r, s') := Capped(b, s, target); r.edges != [] && MergedIfMany(b, s, r, s', target)
  {
    if |b.values| > BinLimit(target) {
      ReduceMeetsLimit(b, s, target);
      GroupsAreMinimal(|b.values|, target);
      assert LeastGroup(|b.values|, GroupCount(|b.values|, target), target);
    }
  }

  lemma ExtendedReaches(b: Bins, v: real, s: real)
    requires Even(b, s) && |Extended(b, v, s, INT_MAX).values| < INT_MAX
    ensures JustReaches(b, Extended(b, v, s, INT_MAX), v, s)
  {
    var down := ExtendedDown(b, v, s, INT_MAX);
    var r := ExtendedUp(down, v, s, INT_MAX);
    FirstBeforeLast(b);
    ExtendDownExact(b, v, s, INT_MAX);
    ExtendUpExact(down, v, s, INT_MAX);
    ExtendedOk(b, v, s);
    assert First(r) == First(b) - Times(s, |down.values| - |b.values|);
    assert Last(r) == Last(b) + Times(s, |r.values| - |down.values|);
  }

  /** extendBinsTo() of a value outside, on a side without outliers. If the range up to the value is
      at least the target number of times as wide as the old bins, these become one bin first, of
      about the size that the target asks for; then as many bins as necessary are added, and bins
      are merged in groups if there are too many. */
  lemma ExtendToIs(b: Bins, s: real, target: nat, under: bool, over: bool, v: real)
    requires Even(b, s) && Ample(target) && |b.values| <= 4 * target + 2
    requires !Covers(b, v) && !Refused(b, v, under, over)
    ensures !(under && over) && Span(b) > 0.0 && RangeTo(b, v) / target as real > 0.0
    ensures var (r, s') := ExtendTo(b, s, target, under, over, v);
            var approx := RangeTo(b, v) / target as real;
            var (b1, s1) := if approx < Span(b) then (b, s) else AllInOne(b, approx, under, over);
            && r.edges != [] && b1.edges != []
            && var b2 := Extended(b1, v, s1, INT_MAX);
               JustReaches(b1, b2, v, s1) && MergedIfMany(b2, s1, r, s', target)
  {
    FirstBeforeLast(b);
    SpanIsCount(b, s);
    assert RangeTo(b, v) == NewRange(b, v);
    ApproxIsPositive(b, v, target);
    var (b1, s1) := Stretched(b, s, target, under, over, v);
    StretchedOk(b, s, target, under, over, v);
    StretchedReaches(b, s, target, under, over, v);
    ExtendedReaches(b1, v, s1);
    ExtendedOk(b1, v, s1);
    CappedIsMerged(Extended(b1, v, s1, INT_MAX), s1, target);
  }
}
