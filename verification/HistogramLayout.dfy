/**
 The first layout of the bins, computed from the precollected range with some room on either side
 and snapped to multiples of a round bin size.
 */
module HistogramLayout {
  import opened HistogramModel
  import opened HistogramRange
  import opened HistogramRounding
  import opened EvenBins
  import opened HistogramReplay
  import opened StrategyModel

  const RANGE_EXTENSION_FACTOR := 1.5

  /** The precollected range, extended. */
  function RoomyRange(min: real, max: real): (r: (real, real))
    requires min <= max
    ensures r.0 <= min && max < r.1
  {
    var c := (min + max) / 2.0;
    var width := (max - min) * RANGE_EXTENSION_FACTOR;
    var r := if width == 0.0 then 1.0 else width;
    var lo, hi := c - r / 2.0, c + r / 2.0;
    // with non-negative data, not all zero, the range starts at zero at the lowest
    (if lo < 0.0 && min >= 0.0 && max > 0.0 then 0.0 else lo, hi)
  }

  function BinSize(approx: real, integers: bool): (s: real)
    requires approx > 0.0
    ensures s > 0.0 && s >= approx / 4.0
  {
    var s := RoundToOneTwoFive(approx);
    if integers then Ceil(s) as real else s
  }

  lemma BinSizeIsAmple(approx: real, s: real, target: nat)
    requires s >= approx / 4.0
    ensures Times(approx, target) <= Times(s, target * 4)
  {
    var four := Times(s, 4);
    assert four == s + s + s + s by { TimesIsProduct(s, 4); }
    TimesGrows(approx, four, target);
    TimesOfProduct(s, target, 4);
  }

  function Share(range: real, target: nat): (a: real)
    requires range > 0.0 && target > 0
    ensures a > 0.0
  {
    QuotientTimes(range, target as real);
    range / target as real
  }

  lemma SharesAddUp(range: real, target: nat)
    requires range > 0.0 && target > 0
    ensures Times(Share(range, target), target) == range
  {
    QuotientTimes(range, target as real);
    TimesIsProduct(Share(range, target), target);
  }

  /** Bounds of the first bins in units of the bin size, and the bin size. */
  function Units(min: real, max: real, target: nat, integers: bool): (r: (int, int, real))
    requires min <= max && target > 0
    ensures r.2 > 0.0
  {
    var (lo, hi) := RoomyRange(min, max);
    var s := BinSize(Share(hi - lo, target), integers);
    ((lo / s).Floor, Ceil(hi / s), s)
  }

  /** The units cover the data, and there are few of them. */
  lemma UnitsCover(min: real, max: real, target: nat, integers: bool)
    requires min <= max && target > 0
    ensures var (i, j, s) := Units(min, max, target, integers);
            i < j && j - i <= 4 * target + 1 && Multiple(s, i) <= min && max < Multiple(s, j)
  {
    var (lo, hi) := RoomyRange(min, max);
    var approx := Share(hi - lo, target);
    var (i, j, s) := Units(min, max, target, integers);
    SharesAddUp(hi - lo, target);
    BinSizeIsAmple(approx, s, target);
    UnitsAround(lo, hi, s, target * 4);
  }

  lemma UnitsAround(lo: real, hi: real, s: real, n: nat)
    requires s > 0.0 && 0.0 < hi - lo <= Times(s, n)
    ensures var i, j := (lo / s).Floor, Ceil(hi / s);
            i < j && j - i <= n + 1 && Multiple(s, i) <= lo && hi <= Multiple(s, j)
  {
    var i, j := (lo / s).Floor, Ceil(hi / s);
    SnapBounds(lo, s);
    SnapBounds(hi, s);
    MultiplesApart(s, i, j);
    MultipleSteps(s, i, j - i);
    CountBelow(s, j - i, n + 1, Multiple(s, j) - Multiple(s, i));
  }

  /** Counting bins survives the shaving of the range, for any number of bins an int can hold. */
  lemma UniformCountOfUnits(lo: real, hi: real, s: real, m: nat)
    requires s > 0.0 && 0 < m <= 4 * INT_MAX + 1 && hi == lo + Times(s, m)
    ensures UniformCount(lo, hi, s) == m
  {
    TimesIsProduct(s, m);
    var shaved := m as real * (1.0 - 0.0000000001);
    assert (hi - lo) * (1.0 - 0.0000000001) == s * shaved;
    assert s * shaved / s == shaved;
    assert m as real - 1.0 < shaved <= m as real;
  }

  /** Multiples of the step are not affected by the snapping of edges near zero. */
  lemma SnapOfMultiple(s: real, k: int)
    requires s > 0.0
    ensures Snap(Multiple(s, k), s) == Multiple(s, k)
  {
    assert Multiple(s, 0) == 0.0;
    if k > 0 {
      MultipleSteps(s, 0, k);
      TimesIsMonotonic(s, 0, k);
    } else if k < 0 {
      MultipleSteps(s, k, -k);
      TimesIsMonotonic(s, 0, -k);
    }
  }

  /** Uniform bins from unit i on: all of width s. */
  lemma UniformIsEven(s: real, i: int, m: nat)
    requires s > 0.0 && m > 0
    ensures var b := Blank(UniformEdges(Multiple(s, i), s, m + 1));
            Even(b, s) && First(b) == Multiple(s, i) && Last(b) == Multiple(s, i + m)
  {
    var edges := UniformEdges(Multiple(s, i), s, m + 1);
    UniformEdgesIncrease(Multiple(s, i), s, m + 1);
    forall k: nat | k <= m
      ensures edges[k] == Multiple(s, i + k)
    {
      MultipleSteps(s, i, k);
      SnapOfMultiple(s, i + k);
    }
    forall k: nat | k < m
      ensures edges[k + 1] == edges[k] + s
    {
      MultipleSteps(s, i + k, 1);
      assert Times(s, 1) == Times(s, 0) + s;
      assert edges[k + 1] == Multiple(s, i + (k + 1));
    }
  }

  /** Uniform bins over the range are even, cover the data and are limited in number. */
  ghost predicate GoodRange(lo: real, hi: real, s: real, min: real, max: real, target: nat)
  {
    s > 0.0 && lo < hi &&
    var n := UniformCount(lo, hi, s);
    && 0 < n <= 4 * target + 1
    && var b := Blank(UniformEdges(lo, s, n + 1)); Even(b, s) && Covers(b, min) && Covers(b, max)
  }

  lemma UnitsAreSnaps(min: real, max: real, target: nat, integers: bool)
    requires min <= max && 0 < target
    ensures var (rangeMin, rangeMax) := RoomyRange(min, max);
            var s := BinSize(Share(rangeMax - rangeMin, target), integers);
            var (i, j, size) := Units(min, max, target, integers);
            size == s && SnapDown(rangeMin, s) == Multiple(s, i) && SnapUp(rangeMax, s) == Multiple(s, j)
  {
  }

  lemma UnitsAreGoodRange(min: real, max: real, target: nat, integers: bool)
    requires min <= max && 0 < target <= INT_MAX
    ensures var (i, j, s) := Units(min, max, target, integers);
            GoodRange(Multiple(s, i), Multiple(s, j), s, min, max, target)
  {
    var (i, j, s) := Units(min, max, target, integers);
    UnitsCover(min, max, target, integers);
    FewUnitsAreGood(i, j, s, min, max, target);
  }

  lemma FewUnitsAreGood(i: int, j: int, s: real, min: real, max: real, target: nat)
    requires s > 0.0 && i < j && j - i <= 4 * target + 1 && target <= INT_MAX
    requires Multiple(s, i) <= min <= max < Multiple(s, j)
    ensures GoodRange(Multiple(s, i), Multiple(s, j), s, min, max, target)
  {
    UnitsAreGood(i, j, s, min, max);
    MultipleSteps(s, i, j - i);
    GoodIfCounted(Multiple(s, i), Multiple(s, j), s, j - i, min, max, target);
  }

  // ---------------------------------------------------------------- what the first layout is

  /** How far beyond the data the bins have to reach: a quarter of the data's width, or one half for
      data of a single value. */
  function Margin(min: real, max: real): real
  {
    if min == max then 0.5 else (max - min) / 4.0
  }

  /** Where the bins have to reach to: the margin on either side, but not below zero for data that are
      not negative and not all zero. */
  function RoomFrom(min: real, max: real): real
  {
    if 0.0 <= min < Margin(min, max) && max > 0.0 then 0.0 else min - Margin(min, max)
  }

  function RoomTo(min: real, max: real): real
  {
    max + Margin(min, max)
  }

  lemma RoomyRangeIsRoom(min: real, max: real)
    requires min <= max
    ensures RoomyRange(min, max) == (RoomFrom(min, max), RoomTo(min, max))
  {
  }

  predicate IsWhole(x: real)
  {
    x == x.Floor as real
  }

  /** The size is the round number nearest to an even share of the range, rounded up to a whole one
      for integers. */
  ghost predicate FirstSize(s: real, share: real, integers: bool)
  {
    if integers then IsWhole(s) && exists round :: NearestOneTwoFive(round, share) && s - 1.0 < round <= s
    else NearestOneTwoFive(s, share)
  }

  ghost predicate TightEnds(first: real, last: real, s: real, min: real, max: real)
  {
    && first <= RoomFrom(min, max) < first + s && last - s < RoomTo(min, max) <= last
    && exists i :: first == Multiple(s, i)
  }

  /** Bins of size s for data between min and max: they begin and end at multiples of s, and reach as
      far as they have to and less than one bin farther. For integers all edges are whole; otherwise
      there are more than half as many bins as wanted. */
  ghost predicate FirstLayout(edges: seq<real>, s: real, min: real, max: real, target: nat, integers: bool)
    requires |edges| >= 2 && target > 0
  {
    && FirstSize(s, (RoomTo(min, max) - RoomFrom(min, max)) / target as real, integers)
    && TightEnds(edges[0], edges[|edges| - 1], s, min, max)
    && if integers then forall k :: 0 <= k < |edges| ==> IsWhole(edges[k]) else 2 * (|edges| - 1) > target
  }

  lemma {:induction false} MultipleIsWhole(s: real, k: int)
    requires IsWhole(s)
    ensures IsWhole(Multiple(s, k))
    decreases if k < 0 then -k else k
  {
    if k > 0 {
      MultipleIsWhole(s, k - 1);
      assert Multiple(s, k) == (Multiple(s, k - 1).Floor + s.Floor) as real;
    } else if k < 0 {
      MultipleIsWhole(s, k + 1);
      assert Multiple(s, k) == (Multiple(s, k + 1).Floor - s.Floor) as real;
    }
  }

  lemma CeilIsNext(x: real)
    ensures IsWhole(Ceil(x) as real) && Ceil(x) as real - 1.0 < x <= Ceil(x) as real
  {
  }

  /** A size below twice the even share makes more than half as many bins as wanted. */
  lemma ManyBins(s: real, n: nat, target: nat, approx: real)
    requires s > 0.0 && target > 0 && s < 2.0 * approx && Times(approx, target) <= Times(s, n)
    ensures 2 * n > target
  {
    if 2 * n <= target {
      TimesIsProduct(s, n);
      TimesIsProduct(approx, target);
      TooFew(s, n as real, target as real, approx);
    }
  }

  lemma TooFew(s: real, n: real, target: real, approx: real)
    requires s > 0.0 && target > 0.0 && s < 2.0 * approx && 0.0 <= 2.0 * n <= target
    ensures s * n < approx * target
  {
    ProductGrows(s, 2.0 * n, target);
    ProductGrows(target, s, 2.0 * approx);
    assert s * (2.0 * n) == 2.0 * (s * n) && target * (2.0 * approx) == 2.0 * (approx * target);
    assert s * target == target * s;
  }

  lemma SizeIsFirstSize(approx: real, integers: bool)
    requires approx > 0.0
    ensures FirstSize(BinSize(approx, integers), approx, integers)
  {
    RoundedIsNearestOfAll(approx);
    CeilIsNext(RoundToOneTwoFive(approx));
  }

  /** The bins of createBins(). */
  lemma LayoutIs(min: real, max: real, target: nat, integers: bool)
    requires min <= max && 0 < target <= INT_MAX
    ensures var (i, j, s) := Units(min, max, target, integers);
            && i < j && FirstLayout(UniformEdges(Multiple(s, i), s, j - i + 1), s, min, max, target, integers)
  {
    var (i, j, s) := Units(min, max, target, integers);
    UnitsCover(min, max, target, integers);
    UnitsAreTight(min, max, target, integers);
    if !integers {
      EnoughBins(min, max, target);
    }
    EdgesAreLayout(i, j, s, min, max, target, integers);
  }

  /** The same in the terms in which createBins() computes it. */
  lemma SnappedLayoutIs(min: real, max: real, target: nat, integers: bool)
    requires min <= max && 0 < target <= INT_MAX
    ensures var (rangeMin, rangeMax) := RoomyRange(min, max);
            var s := BinSize(Share(rangeMax - rangeMin, target), integers);
            var lo, hi := SnapDown(rangeMin, s), SnapUp(rangeMax, s);
            var n := UniformCount(lo, hi, s);
            n >= 1 && FirstLayout(UniformEdges(lo, s, n + 1), s, min, max, target, integers)
  {
    var (i, j, s) := Units(min, max, target, integers);
    LayoutIs(min, max, target, integers);
    UnitsCover(min, max, target, integers);
    UnitsAreSnaps(min, max, target, integers);
    MultipleSteps(s, i, j - i);
    UniformCountOfUnits(Multiple(s, i), Multiple(s, j), s, j - i);
  }

  lemma EdgesAreLayout(i: int, j: int, s: real, min: real, max: real, target: nat, integers: bool)
    requires i < j && s > 0.0 && target > 0 && TightEnds(Multiple(s, i), Multiple(s, j), s, min, max)
    requires FirstSize(s, (RoomTo(min, max) - RoomFrom(min, max)) / target as real, integers)
    requires if integers then IsWhole(s) else 2 * (j - i) > target
    ensures FirstLayout(UniformEdges(Multiple(s, i), s, j - i + 1), s, min, max, target, integers)
  {
    UniformIsEven(s, i, j - i);
    assert i + (j - i) == j;
    if integers {
      WholeEdges(s, i, j - i);
    }
  }

  lemma UnitsAreTight(min: real, max: real, target: nat, integers: bool)
    requires min <= max && 0 < target
    ensures var (i, j, s) := Units(min, max, target, integers);
            && TightEnds(Multiple(s, i), Multiple(s, j), s, min, max)
            && FirstSize(s, (RoomTo(min, max) - RoomFrom(min, max)) / target as real, integers)
            && (integers ==> IsWhole(s))
  {
    var (i, j, s) := Units(min, max, target, integers);
    RoomyRangeIsRoom(min, max);
    SizeIsFirstSize(Share(RoomTo(min, max) - RoomFrom(min, max), target), integers);
    SnapBounds(RoomFrom(min, max), s);
    SnapBounds(RoomTo(min, max), s);
  }

  lemma WholeEdges(s: real, i: int, m: nat)
    requires s > 0.0 && IsWhole(s) && m > 0
    ensures var edges := UniformEdges(Multiple(s, i), s, m + 1); forall k :: 0 <= k < |edges| ==> IsWhole(edges[k])
  {
    var edges := UniformEdges(Multiple(s, i), s, m + 1);
    forall k | 0 <= k < |edges|
      ensures IsWhole(edges[k])
    {
      MultipleSteps(s, i, k);
      SnapOfMultiple(s, i + k);
      MultipleIsWhole(s, i + k);
    }
  }

  lemma EnoughBins(min: real, max: real, target: nat)
    requires min <= max && 0 < target <= INT_MAX
    ensures var (i, j, s) := Units(min, max, target, false); i < j && 2 * (j - i) > target
  {
    var (lo, hi) := RoomyRange(min, max);
    var (i, j, s) := Units(min, max, target, false);
    var approx := Share(hi - lo, target);
    UnitsCover(min, max, target, false);
    SharesAddUp(hi - lo, target);
    RoundedIsNearest(approx, s);
    SnapBounds(lo, s);
    SnapBounds(hi, s);
    MultipleSteps(s, i, j - i);
    ManyBins(s, j - i, target, approx);
  }

  /** A good range whose uniform bins are the first layout. */
  ghost predicate LaysOut(lo: real, hi: real, s: real, min: real, max: real, target: nat, integers: bool)
    requires target > 0
  {
    && GoodRange(lo, hi, s, min, max, target)
    && FirstLayout(UniformEdges(lo, s, UniformCount(lo, hi, s) + 1), s, min, max, target, integers)
  }

  /** createBins() lays out such a range. */
  lemma LayoutCovers(min: real, max: real, target: nat, integers: bool)
    requires min <= max && 0 < target <= INT_MAX
    ensures var (rangeMin, rangeMax) := RoomyRange(min, max);
            var s := BinSize(Share(rangeMax - rangeMin, target), integers);
            LaysOut(SnapDown(rangeMin, s), SnapUp(rangeMax, s), s, min, max, target, integers)
  {
    UnitsAreSnaps(min, max, target, integers);
    UnitsAreGoodRange(min, max, target, integers);
    SnappedLayoutIs(min, max, target, integers);
  }

  lemma UnitsAreGood(i: int, j: int, s: real, min: real, max: real)
    requires s > 0.0 && i < j && Multiple(s, i) <= min <= max < Multiple(s, j)
    ensures var b := Blank(UniformEdges(Multiple(s, i), s, j - i + 1)); Even(b, s) && Covers(b, min) && Covers(b, max)
  {
    UniformIsEven(s, i, j - i);
    assert i + (j - i) == j;
  }

  lemma GoodIfCounted(lo: real, hi: real, s: real, n: nat, min: real, max: real, target: nat)
    requires s > 0.0 && lo < hi && hi == lo + Times(s, n) && 0 < n <= 4 * target + 1 && target <= INT_MAX
    requires var b := Blank(UniformEdges(lo, s, n + 1)); Even(b, s) && Covers(b, min) && Covers(b, max)
    ensures GoodRange(lo, hi, s, min, max, target)
  {
    UniformCountOfUnits(lo, hi, s, n);
  }
}
