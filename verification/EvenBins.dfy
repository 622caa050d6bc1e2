/**
 Histograms whose bins all have the same width, and the operations by which the default strategy
 keeps them so while it grows the range and bounds the number of bins.
 */
module EvenBins {
  import opened Bits
  import opened HistogramModel
  import opened HistogramRange
  import opened HistogramRounding

  const INT_MAX := 2147483647

  /** All bins have width s. */
  ghost predicate Even(b: Bins, s: real)
  {
    s > 0.0 && Sane(b) && b.edges != [] && forall i :: 0 <= i < |b.values| ==> b.edges[i + 1] == b.edges[i] + s
  }

  lemma {:induction false} EvenSpan(b: Bins, s: real, i: nat, j: nat)
    requires Even(b, s) && i <= j < |b.edges|
    ensures b.edges[j] == b.edges[i] + Times(s, j - i)
    decreases j
  {
    if i < j {
      EvenSpan(b, s, i, j - 1);
      assert b.edges[j - 1 + 1] == b.edges[j - 1] + s;
    }
  }

  function Span(b: Bins): real
    requires b.edges != []
  {
    Last(b) - First(b)
  }

  lemma SpanIsCount(b: Bins, s: real)
    requires Even(b, s)
    ensures Span(b) == Times(s, |b.values|) && Span(b) > 0.0
  {
    EvenSpan(b, s, 0, |b.values|);
    FirstBeforeLast(b);
  }

  // ---------------------------------------------------------------- extension

  lemma EvenBelow(b: Bins, s: real)
    requires Even(b, s)
    ensures Even(Prepended(b, [First(b) - s]), s)
  {
    OneBinBelow(b, s);
    var r := Prepended(b, [First(b) - s]);
    forall i | 0 <= i < |r.values|
      ensures r.edges[i + 1] == r.edges[i] + s
    {
      if i > 0 {
        assert r.edges[i] == b.edges[i - 1] && r.edges[i + 1] == b.edges[i - 1 + 1];
      }
    }
  }

  lemma EvenAbove(b: Bins, s: real)
    requires Even(b, s)
    ensures Even(Appended(b, [Last(b) + s]), s)
  {
    OneBinAbove(b, s);
  }

  lemma {:induction false} EvenDown(b: Bins, v: real, s: real, max: int)
    requires Even(b, s)
    ensures Even(ExtendedDown(b, v, s, max), s)
    decreases max - |b.values|
  {
    if v < First(b) && |b.values| < max {
      EvenBelow(b, s);
      EvenDown(Prepended(b, [First(b) - s]), v, s, max);
    }
  }

  lemma {:induction false} EvenUp(b: Bins, v: real, s: real, max: int)
    requires Even(b, s)
    ensures Even(ExtendedUp(b, v, s, max), s)
    decreases max - |b.values|
  {
    if v >= Last(b) && |b.values| < max {
      EvenAbove(b, s);
      EvenUp(Appended(b, [Last(b) + s]), v, s, max);
    }
  }

  // ---------------------------------------------------------------- reduceNumBinsTo()

  function Padding(n: nat, g: nat): nat
    requires g > 0
  {
    if n % g == 0 then 0 else g - n % g
  }

  /** reduceNumBinsTo(): pads with empty bins up to a multiple of the group size, then merges. */
  function Reduced(b: Bins, s: real, limit: nat): (Bins, real)
    requires limit > 0 && b.edges != [] && b.values != [] && |b.edges| == |b.values| + 1
  {
    var g := GroupCount(|b.values|, limit);
    GroupBounds(|b.values|, limit, 0);
    (Merge(Appended(b, EdgesAbove(Last(b), s, Padding(|b.values|, g))), g), Times(s, g))
  }

  lemma EdgesAboveIncrease(right: real, s: real, k: nat)
    requires s > 0.0
    ensures Increasing(EdgesAbove(right, s, k)) && (k > 0 ==> right < EdgesAbove(right, s, k)[0])
  {
    var r := EdgesAbove(right, s, k);
    forall i, j | 0 <= i < j < |r|
      ensures r[i] < r[j]
    {
      TimesIsMonotonic(s, i + 1, j + 1);
    }
    TimesIsMonotonic(s, 0, 1);
  }

  lemma PaddedEdges(b: Bins, s: real, k: nat, i: nat)
    requires |b.edges| == |b.values| + 1 && i <= |b.values| + k
    ensures var r := Appended(b, EdgesAbove(Last(b), s, k));
            && |r.edges| == |b.values| + k + 1
            && (i <= |b.values| ==> r.edges[i] == b.edges[i])
            && (i >= |b.values| ==> r.edges[i] == Last(b) + Times(s, i - |b.values|))
  {
  }

  lemma EvenPadded(b: Bins, s: real, k: nat)
    requires Even(b, s)
    ensures var r := Appended(b, EdgesAbove(Last(b), s, k));
            && Even(r, s) && |r.values| == |b.values| + k && Total(r) == Total(b)
            && First(r) == First(b) && Last(r) == Last(b) + Times(s, k)
  {
    var above := EdgesAbove(Last(b), s, k);
    EdgesAboveIncrease(Last(b), s, k);
    AppendKeepsTotal(b, above);
    var r := Appended(b, above);
    forall i | 0 <= i < |r.values|
      ensures r.edges[i + 1] == r.edges[i] + s
    {
      PaddedStep(b, s, k, i);
    }
    PaddedEdges(b, s, k, 0);
    PaddedEdges(b, s, k, |r.values|);
  }

  lemma PaddedStep(b: Bins, s: real, k: nat, i: nat)
    requires Even(b, s) && i < |b.values| + k
    ensures var r := Appended(b, EdgesAbove(Last(b), s, k));
            i + 1 < |r.edges| && r.edges[i + 1] == r.edges[i] + s
  {
    PaddedEdges(b, s, k, i);
    PaddedEdges(b, s, k, i + 1);
    if i < |b.values| {
      assert b.edges[i + 1] == b.edges[i] + s;
    }
  }

  lemma PaddedIsMultiple(n: nat, g: nat)
    requires g > 0
    ensures (n + Padding(n, g)) % g == 0 && GroupCount(n + Padding(n, g), g) == GroupCount(n, g)
    ensures g * GroupCount(n, g) == n + Padding(n, g)
  {
    var m := GroupCount(n, g);
    var p := Padding(n, g);
    assert n == g * (n / g) + n % g;
    if n % g == 0 {
      MultipleOf(g, n / g, n);
    } else {
      MultipleOf(g, n / g + 1, n + p);
      GroupBounds(n, g, n / g);
      GroupBounds(n, g, n / g + 1);
    }
  }

  lemma MultipleOf(g: nat, q: nat, n: nat)
    requires g > 0 && n == g * q
    ensures n % g == 0 && GroupCount(n, g) == q
  {
    QuotientIsUnique(n, g, q, 0);
    QuotientIsUnique(n + g - 1, g, q, g - 1);
  }

  /** Merging whole groups of even bins gives even bins. */
  lemma EvenMerged(b: Bins, s: real, g: nat)
    requires Even(b, s) && g > 0 && g * GroupCount(|b.values|, g) == |b.values|
    ensures Even(Merge(b, g), Times(s, g))
  {
    MergeKeepsTotal(b, g);
    TimesIsMonotonic(s, 0, g);
    var n, r := |b.values|, Merge(b, g);
    forall i | 0 <= i < |r.values|
      ensures r.edges[i + 1] == r.edges[i] + Times(s, g)
    {
      GroupBounds(n, g, i);
      GroupBounds(n, g, i + 1);
      assert g * (i + 1) == g * i + g;
      assert r.edges[i + 1] == b.edges[g * (i + 1)];
      EvenSpan(b, s, g * i, g * (i + 1));
    }
  }

  /** The limit is met, the range grows upward by less than one merged bin, and nothing is lost. */
  lemma ReduceMeetsLimit(b: Bins, s: real, limit: nat)
    requires Even(b, s) && limit > 0
    ensures var (r, s') := Reduced(b, s, limit);
            && Even(r, s') && |r.values| <= limit && Total(r) == Total(b) && r.under == b.under && r.over == b.over
            && r.edges != [] && First(r) == First(b) && Last(b) <= Last(r) < Last(b) + s'
            && s' == Times(s, GroupCount(|b.values|, limit))
            && |r.values| == GroupCount(|b.values|, GroupCount(|b.values|, limit))
  {
    var n := |b.values|;
    var g := GroupCount(n, limit);
    GroupBounds(n, limit, 0);
    var k := Padding(n, g);
    EvenPadded(b, s, k);
    PaddedIsMultiple(n, g);
    if k > 0 {
      TimesIsMonotonic(s, 0, k);
    }
    TimesIsMonotonic(s, k, g);
    GroupsFitLimit(n, g, limit);
    WholeGroups(Appended(b, EdgesAbove(Last(b), s, k)), s, g);
  }

  /** Groups are no larger than the limit asks for: with groups of one bin less there would be too many. */
  lemma GroupsAreMinimal(n: nat, limit: nat)
    requires limit > 0 && n > 0
    ensures var g := GroupCount(n, limit); g >= 1 && n <= limit * g && limit * (g - 1) < n
  {
    GroupBounds(n, limit, 0);
    GroupBounds(n, limit, GroupCount(n, limit) - 1);
  }

  lemma WholeGroups(b: Bins, s: real, g: nat)
    requires Even(b, s) && g > 0 && g * GroupCount(|b.values|, g) == |b.values|
    ensures var r := Merge(b, g);
            && Even(r, Times(s, g)) && |r.values| == GroupCount(|b.values|, g) && Total(r) == Total(b)
            && r.under == b.under && r.over == b.over && First(r) == First(b) && Last(r) == Last(b)
  {
    EvenMerged(b, s, g);
    MergeKeepsTotal(b, g);
  }

  lemma GroupsFitLimit(n: nat, g: nat, limit: nat)
    requires limit > 0 && g > 0 && g == GroupCount(n, limit)
    ensures GroupCount(n, g) <= limit
  {
    GroupBounds(n, limit, 0);
    assert n <= limit * g;
    GroupBounds(n, g, limit);
    assert g * limit == limit * g;
  }

  // ---------------------------------------------------------------- mergeAllBinsIntoOne()

  /** k times s for any integer k, as repeated addition or subtraction. */
  function Multiple(s: real, k: int): real
    decreases if k < 0 then -k else k
  {
    if k == 0 then 0.0 else if k > 0 then Multiple(s, k - 1) + s else Multiple(s, k + 1) - s
  }

  lemma {:induction false} MultipleIsProduct(s: real, k: int)
    ensures Multiple(s, k) == s * k as real
    decreases if k < 0 then -k else k
  {
    if k > 0 {
      MultipleIsProduct(s, k - 1);
      Distributes(s, k as real, (k - 1) as real);
    } else if k < 0 {
      MultipleIsProduct(s, k + 1);
      Distributes(s, (k + 1) as real, k as real);
    }
  }

  lemma {:induction false} MultipleSteps(s: real, k: int, n: nat)
    ensures Multiple(s, k + n) == Multiple(s, k) + Times(s, n)
    decreases n
  {
    if n > 0 {
      MultipleSteps(s, k, n - 1);
      assert Multiple(s, k + n) == Multiple(s, k + n - 1) + s;
    }
  }

  /** The multiples of s next to x, below and above. */
  function SnapDown(x: real, s: real): real
    requires s > 0.0
  {
    Multiple(s, (x / s).Floor)
  }

  function SnapUp(x: real, s: real): real
    requires s > 0.0
  {
    Multiple(s, Ceil(x / s))
  }

  lemma PositiveProduct(x: real, y: real)
    requires x > 0.0 && y >= 0.0
    ensures x * y >= 0.0 && (y > 0.0 ==> x * y > 0.0)
  {
  }

  lemma UnitsBelow(s: real, q: real, k: real, x: real)
    requires s > 0.0 && s * q == x && k <= q < k + 1.0
    ensures x - s < s * k <= x
  {
    PositiveProduct(s, q - k);
    PositiveProduct(s, k + 1.0 - q);
    Distributes(s, q, k);
    Distributes(s, k + 1.0, q);
    Distributes(s, k + 1.0, k);
  }

  lemma UnitsAbove(s: real, q: real, k: real, below: real, x: real)
    requires s > 0.0 && s * q == x && below < q <= k && below == k - 1.0
    ensures x <= s * k < x + s
  {
    NotBelow(s, q, k, x);
    JustBelow(s, q, below, x);
    UnitAbove(s, k, below, x);
  }

  lemma NotBelow(s: real, q: real, k: real, x: real)
    requires s > 0.0 && s * q == x && q <= k
    ensures x <= s * k
  {
    ProductGrows(s, q, k);
  }

  lemma JustBelow(s: real, q: real, below: real, x: real)
    requires s > 0.0 && s * q == x && below < q
    ensures s * below < x
  {
    ProductGrows(s, below, q);
  }

  lemma UnitAbove(s: real, k: real, below: real, x: real)
    requires below == k - 1.0 && s * below < x
    ensures s * k < x + s
  {
    Distributes(s, k, below);
  }

  lemma ProductGrows(s: real, a: real, b: real)
    requires s > 0.0 && a <= b
    ensures s * a <= s * b && (a < b ==> s * a < s * b)
  {
    PositiveProduct(s, b - a);
    Distributes(s, b, a);
  }

  lemma Distributes(s: real, a: real, b: real)
    ensures s * (a - b) == s * a - s * b
    ensures a - b == 1.0 ==> s * a - s * b == s
  {
  }

  lemma QuotientTimes(x: real, s: real)
    requires s > 0.0
    ensures s * (x / s) == x
  {
  }

  lemma SnapDownBounds(x: real, s: real)
    requires s > 0.0
    ensures x - s < SnapDown(x, s) <= x
  {
    var k := (x / s).Floor;
    QuotientTimes(x, s);
    UnitsBelow(s, x / s, k as real, x);
    MultipleIsProduct(s, k);
  }

  lemma SnapUpBounds(x: real, s: real)
    requires s > 0.0
    ensures x <= SnapUp(x, s) < x + s
  {
    var k := Ceil(x / s);
    QuotientTimes(x, s);
    UnitsAbove(s, x / s, k as real, k as real - 1.0, x);
    MultipleIsProduct(s, k);
  }

  lemma SnapBounds(x: real, s: real)
    requires s > 0.0
    ensures x - s < SnapDown(x, s) <= x <= SnapUp(x, s) < x + s
  {
    SnapDownBounds(x, s);
    SnapUpBounds(x, s);
  }

  /** The size of the one bin that takes in the whole range. */
  function OneBinSize(range: real, approx: real): (s: real)
    requires range > 0.0 && approx > 0.0
  {
    var s := RoundToOneTwoFive(approx);
    if s < range then SnapUp(range, s) else s
  }

  lemma OneBinSizeCovers(range: real, approx: real)
    requires range > 0.0 && approx > 0.0
    ensures OneBinSize(range, approx) >= range && OneBinSize(range, approx) >= approx / 4.0
  {
    SnapBounds(range, RoundToOneTwoFive(approx));
  }

  /** The range of the merged bin: snapped to multiples of its size on both sides, or extended on
      the one side where there are no outliers. */
  function OneBinRange(b: Bins, approx: real, under: bool, over: bool): (real, real)
    requires b.edges != [] && Span(b) > 0.0 && approx > 0.0 && !(under && over)
  {
    var s := OneBinSize(Span(b), approx);
    OneBinSizeCovers(Span(b), approx);
    if !under && !over then (SnapDown(First(b), s), SnapUp(Last(b), s))
    else if !under then (Last(b) - s, Last(b))
    else (First(b), First(b) + s)
  }

  function MaybePrepended(b: Bins, x: real): Bins
    requires b.edges != []
  {
    if x != First(b) then Prepended(b, [x]) else b
  }

  function MaybeAppended(b: Bins, x: real): Bins
    requires b.edges != []
  {
    if x != Last(b) then Appended(b, [x]) else b
  }

  /** mergeAllBinsIntoOne(): merge, add a bin on either side where the range grows, merge again. */
  function AllInOne(b: Bins, approx: real, under: bool, over: bool): (Bins, real)
    requires b.edges != [] && |b.edges| == |b.values| + 1 && b.values != []
    requires Span(b) > 0.0 && approx > 0.0 && !(under && over)
  {
    var (lo, hi) := OneBinRange(b, approx, under, over);
    var merged := Merge(b, |b.values|);
    MultipleOf(|b.values|, 1, |b.values|);
    var wide := MaybeAppended(MaybePrepended(merged, lo), hi);
    (Merge(wide, |wide.values|), hi - lo)
  }

  lemma OneBin(b: Bins)
    requires Sane(b) && b.edges != []
    ensures var r := Merge(b, |b.values|);
            && Sane(r) && r.edges == [First(b), Last(b)] && |r.values| == 1 && Total(r) == Total(b)
            && r.under == b.under && r.over == b.over
  {
    MultipleOf(|b.values|, 1, |b.values|);
    MergeKeepsTotal(b, |b.values|);
  }

  lemma Widened(b: Bins, lo: real, hi: real)
    requires Sane(b) && b.edges != [] && lo <= First(b) && Last(b) <= hi
    ensures var r := MaybeAppended(MaybePrepended(b, lo), hi);
            && Sane(r) && r.edges != [] && First(r) == lo && Last(r) == hi && Total(r) == Total(b)
            && r.under == b.under && r.over == b.over
  {
    if lo != First(b) {
      PrependKeepsTotal(b, [lo]);
    }
    var p := MaybePrepended(b, lo);
    if hi != Last(p) {
      AppendKeepsTotal(p, [hi]);
    }
  }

  /** One bin is left; it covers the old range, is at least a quarter of the wanted size, and on
      either side goes beyond the old range by less than its own size. */
  lemma AllInOneIsOneBin(b: Bins, approx: real, under: bool, over: bool)
    requires Sane(b) && b.edges != [] && Span(b) > 0.0 && approx > 0.0 && !(under && over)
    ensures var (r, s) := AllInOne(b, approx, under, over);
            && Even(r, s) && |r.values| == 1 && Total(r) == Total(b) && r.under == b.under && r.over == b.over
            && First(b) - s <= First(r) <= First(b) && Last(b) <= Last(r) && s >= approx / 4.0
  {
    var (lo, hi) := OneBinRange(b, approx, under, over);
    var size := OneBinSize(Span(b), approx);
    OneBinSizeCovers(Span(b), approx);
    OneBinRangeCovers(b, approx, under, over);
    OneBin(b);
    var merged := Merge(b, |b.values|);
    Widened(merged, lo, hi);
    var wide := MaybeAppended(MaybePrepended(merged, lo), hi);
    OneBin(wide);
  }

  /** The size of the one bin: the round number nearest to the wanted size, or the smallest multiple of
      it that the old range fits in. */
  lemma OneBinSizeIs(range: real, approx: real)
    requires range > 0.0 && approx > 0.0
    ensures exists round, k: nat ::
              && NearestOneTwoFive(round, approx) && OneBinSize(range, approx) == Times(round, k)
              && k >= 1 && Times(round, k) >= range && (k > 1 ==> Times(round, k - 1) < range)
  {
    var round := RoundToOneTwoFive(approx);
    RoundedIsNearestOfAll(approx);
    if round < range {
      SnapBounds(range, round);
      var k := Ceil(range / round);
      PositiveUnits(range, round);
      assert Multiple(round, k) == Times(round, k) by { MultipleSteps(round, 0, k); }
      assert Times(round, k) == Times(round, k - 1) + round;
    } else {
      assert Times(round, 1) == Times(round, 0) + round;
    }
  }

  lemma PositiveUnits(range: real, round: real)
    requires range > 0.0 && round > 0.0
    ensures Ceil(range / round) >= 1
  {
    QuotientTimes(range, round);
    if range / round <= 0.0 {
      PositiveProduct(round, -(range / round));
    }
  }

  /** The one bin holds everything, and lies where it has to: from and to multiples of its size, as
      tight around the old range as that allows; or, where outliers have been counted on one side, it
      begins or ends on that side where the old bins did. */
  lemma AllInOneShape(b: Bins, approx: real, under: bool, over: bool)
    requires Sane(b) && b.edges != [] && Span(b) > 0.0 && approx > 0.0 && !(under && over)
    ensures var (r, s) := AllInOne(b, approx, under, over);
            var size := OneBinSize(Span(b), approx);
            && size > 0.0 && |r.values| == 1 && |r.edges| == 2 && s == Last(r) - First(r)
            && r.values[0] == Sum(b.values)
            && (under ==> First(r) == First(b) && Last(r) == First(b) + size)
            && (over ==> Last(r) == Last(b) && First(r) == Last(b) - size)
            && (!under && !over ==>
                  && (exists i :: First(r) == Multiple(size, i)) && (exists i :: Last(r) == Multiple(size, i))
                  && First(r) <= First(b) < First(r) + size && Last(r) - size < Last(b) <= Last(r))
  {
    var (lo, hi) := OneBinRange(b, approx, under, over);
    var size := OneBinSize(Span(b), approx);
    OneBinSizeCovers(Span(b), approx);
    OneBinRangeCovers(b, approx, under, over);
    OneBin(b);
    var merged := Merge(b, |b.values|);
    Widened(merged, lo, hi);
    var wide := MaybeAppended(MaybePrepended(merged, lo), hi);
    OneBin(wide);
    OnlyValue(Merge(wide, |wide.values|), b);
    if !under && !over {
      SnapBounds(First(b), size);
      SnapBounds(Last(b), size);
    }
  }

  lemma OnlyValue(r: Bins, b: Bins)
    requires |r.values| == 1 && Total(r) == Total(b) && r.under == b.under && r.over == b.over
    ensures r.values[0] == Sum(b.values)
  {
    assert r.values[1..] == [];
    assert Sum(r.values) == r.values[0] + Sum(r.values[1..]);
  }

  lemma OneBinRangeCovers(b: Bins, approx: real, under: bool, over: bool)
    requires b.edges != [] && Span(b) > 0.0 && approx > 0.0 && !(under && over)
    ensures var (lo, hi) := OneBinRange(b, approx, under, over);
            && First(b) - (hi - lo) <= lo <= First(b) && Last(b) <= hi && hi - lo >= approx / 4.0
  {
    var s := OneBinSize(Span(b), approx);
    OneBinSizeCovers(Span(b), approx);
    if !under && !over {
      SnapBounds(First(b), s);
      SnapBounds(Last(b), s);
      SnapsApart(First(b), Last(b), s);
    }
  }

  lemma SnapsApart(x: real, y: real, s: real)
    requires s > 0.0 && x < y
    ensures SnapUp(y, s) - SnapDown(x, s) >= s
  {
    SnapBounds(x, s);
    SnapBounds(y, s);
    MultiplesApart(s, (x / s).Floor, Ceil(y / s));
  }

  lemma MultiplesApart(s: real, i: int, j: int)
    requires s > 0.0 && Multiple(s, i) < Multiple(s, j)
    ensures i < j && Multiple(s, i) + s <= Multiple(s, j)
  {
    if i >= j {
      MultipleSteps(s, j, i - j);
      NotNegative(s, i - j);
    }
    MultipleSteps(s, i, j - i);
    NotNegative(s, j - i - 1);
  }

  lemma NotNegative(s: real, n: nat)
    requires s > 0.0
    ensures Times(s, n) >= 0.0
  {
    if n > 0 {
      TimesIsMonotonic(s, 0, n);
    }
  }
}
