/**
 Adaptive histograms seen from the end: whatever extending and merging happened on the way, the
 histogram is the one that collecting everything into the final bins would have given.
 */
module HistogramReplay {
  import opened HistogramModel
  import opened HistogramRange
  import opened HistogramRounding
  import opened EvenBins

  function Blank(edges: seq<real>): Bins
    requires edges != []
  {
    Bins(edges, Zeros(|edges| - 1), 0.0, 0.0)
  }

  ghost predicate AllCovered(b: Bins, seen: seq<Observation>)
    requires b.edges != []
  {
    forall i :: 0 <= i < |seen| ==> Covers(b, seen[i].value)
  }

  /** The bins hold exactly what was seen, and nothing seen lies outside of them. */
  ghost predicate Holds(b: Bins, seen: seq<Observation>)
  {
    Sane(b) && b.edges != [] && AllCovered(b, seen) && b == CollectAll(Blank(b.edges), seen)
  }

  lemma HoldsMeansNoOutliers(b: Bins, seen: seq<Observation>)
    requires Holds(b, seen)
    ensures b.under == 0.0 && b.over == 0.0 && Sum(b.values) == WeightOf(seen)
  {
    SumOfZeros(|b.edges| - 1);
    CollectAllKeepsTotal(Blank(b.edges), seen);
    OutliersStay(Blank(b.edges), seen);
  }

  lemma {:induction false} OutliersStay(b: Bins, seen: seq<Observation>)
    requires Sane(b) && b.edges != [] && AllCovered(b, seen)
    ensures CollectAll(b, seen).under == b.under && CollectAll(b, seen).over == b.over
    decreases |seen|
  {
    if seen != [] {
      var v, w := seen[0].value, seen[0].weight;
      assert Covers(b, v);
      CollectHits(b, v, w);
      assert AllCovered(Collect(b, v, w), seen[1..]);
      OutliersStay(Collect(b, v, w), seen[1..]);
    }
  }

  lemma {:induction false} CollectAllSnoc(b: Bins, xs: seq<Observation>, o: Observation)
    requires |b.edges| == |b.values| + 1
    ensures CollectAll(b, xs + [o]) == Collect(CollectAll(b, xs), o.value, o.weight)
  {
    CollectAllConcat(b, xs, [o]);
    var c := CollectAll(b, xs);
    assert [o][1..] == [];
    assert CollectAll(c, [o]) == CollectAll(Collect(c, o.value, o.weight), []);
  }

  lemma HoldsOneMore(b: Bins, seen: seq<Observation>, v: real, w: real)
    requires Holds(b, seen) && Covers(b, v)
    ensures Holds(Collect(b, v, w), seen + [Observation(v, w)])
  {
    CollectHits(b, v, w);
    CollectAllSnoc(Blank(b.edges), seen, Observation(v, w));
  }

  // ---------------------------------------------------------------- more bins

  lemma {:induction false} UpperBoundAfter(front: seq<real>, edges: seq<real>, v: real)
    requires forall i :: 0 <= i < |front| ==> front[i] <= v
    ensures UpperBound(front + edges, v) == |front| + UpperBound(edges, v)
  {
    if front == [] {
      assert front + edges == edges;
    } else {
      assert (front + edges)[1..] == front[1..] + edges;
      UpperBoundAfter(front[1..], edges, v);
    }
  }

  lemma {:induction false} UpperBoundBefore(edges: seq<real>, back: seq<real>, v: real)
    requires UpperBound(edges, v) < |edges|
    ensures UpperBound(edges + back, v) == UpperBound(edges, v)
  {
    if v >= edges[0] {
      assert (edges + back)[1..] == edges[1..] + back;
      UpperBoundBefore(edges[1..], back, v);
    }
  }

  lemma PrependCommutes(b: Bins, front: seq<real>, v: real, w: real)
    requires Sane(b) && b.edges != [] && Covers(b, v) && Sane(Prepended(b, front))
    ensures Prepended(Collect(b, v, w), front) == Collect(Prepended(b, front), v, w)
  {
    var k := UpperBound(b.edges, v);
    UpperBoundSplits(b.edges, v, k);
    var r := Prepended(b, front);
    assert r.edges[|front|] == b.edges[0];
    forall i | 0 <= i < |front|
      ensures front[i] <= v
    {
      assert r.edges[i] == front[i] && r.edges[i] < r.edges[|front|];
    }
    UpperBoundAfter(front, b.edges, v);
    assert r.values[|front| + k - 1] == b.values[k - 1];
    assert Zeros(|front|) + b.values[k - 1 := b.values[k - 1] + w]
        == (Zeros(|front|) + b.values)[|front| + k - 1 := b.values[k - 1] + w];
  }

  lemma AppendCommutes(b: Bins, back: seq<real>, v: real, w: real)
    requires Sane(b) && b.edges != [] && Covers(b, v)
    ensures Appended(Collect(b, v, w), back) == Collect(Appended(b, back), v, w)
  {
    var k := UpperBound(b.edges, v);
    UpperBoundSplits(b.edges, v, k);
    UpperBoundBefore(b.edges, back, v);
    assert b.values[k - 1 := b.values[k - 1] + w] + Zeros(|back|)
        == (b.values + Zeros(|back|))[k - 1 := b.values[k - 1] + w];
  }

  lemma {:induction false} PrependCommutesWithStream(b: Bins, front: seq<real>, seen: seq<Observation>)
    requires Sane(b) && b.edges != [] && AllCovered(b, seen) && Sane(Prepended(b, front))
    ensures Prepended(CollectAll(b, seen), front) == CollectAll(Prepended(b, front), seen)
    decreases |seen|
  {
    if seen != [] {
      var c := Collect(b, seen[0].value, seen[0].weight);
      assert Covers(b, seen[0].value);
      CollectHits(b, seen[0].value, seen[0].weight);
      PrependCommutes(b, front, seen[0].value, seen[0].weight);
      PrependCommutesWithStream(c, front, seen[1..]);
    }
  }

  lemma {:induction false} AppendCommutesWithStream(b: Bins, back: seq<real>, seen: seq<Observation>)
    requires Sane(b) && b.edges != [] && AllCovered(b, seen)
    ensures Appended(CollectAll(b, seen), back) == CollectAll(Appended(b, back), seen)
    decreases |seen|
  {
    if seen != [] {
      var c := Collect(b, seen[0].value, seen[0].weight);
      assert Covers(b, seen[0].value);
      CollectHits(b, seen[0].value, seen[0].weight);
      AppendCommutes(b, back, seen[0].value, seen[0].weight);
      AppendCommutesWithStream(c, back, seen[1..]);
    }
  }

  lemma HoldsPrepended(b: Bins, front: seq<real>, seen: seq<Observation>)
    requires Holds(b, seen) && Sane(Prepended(b, front))
    ensures Holds(Prepended(b, front), seen)
  {
    var blank, r := Blank(b.edges), Prepended(b, front);
    assert Prepended(blank, front) == Blank(front + b.edges);
    PrependCommutesWithStream(blank, front, seen);
    assert r.edges[|r.edges| - 1] == b.edges[|b.edges| - 1];
    assert First(r) <= First(b) by { assert r.edges[|front|] == b.edges[0]; }
    WiderCovers(b, r, seen);
  }

  lemma HoldsAppended(b: Bins, back: seq<real>, seen: seq<Observation>)
    requires Holds(b, seen) && Sane(Appended(b, back))
    ensures Holds(Appended(b, back), seen)
  {
    var blank, r := Blank(b.edges), Appended(b, back);
    assert Appended(blank, back) == Blank(b.edges + back);
    AppendCommutesWithStream(blank, back, seen);
    assert Last(b) <= Last(r) by { assert r.edges[|b.edges| - 1] == Last(b); }
    WiderCovers(b, r, seen);
  }

  lemma WiderCovers(b: Bins, r: Bins, seen: seq<Observation>)
    requires b.edges != [] && r.edges != [] && First(r) <= First(b) && Last(b) <= Last(r) && AllCovered(b, seen)
    ensures AllCovered(r, seen)
  {
    forall i | 0 <= i < |seen|
      ensures Covers(r, seen[i].value)
    {
      assert Covers(b, seen[i].value);
    }
  }

  lemma {:induction false} HoldsDown(b: Bins, v: real, s: real, max: int, seen: seq<Observation>)
    requires Even(b, s) && Holds(b, seen)
    ensures Holds(ExtendedDown(b, v, s, max), seen)
    decreases max - |b.values|
  {
    if v < First(b) && |b.values| < max {
      EvenBelow(b, s);
      HoldsPrepended(b, [First(b) - s], seen);
      HoldsDown(Prepended(b, [First(b) - s]), v, s, max, seen);
    }
  }

  lemma {:induction false} HoldsUp(b: Bins, v: real, s: real, max: int, seen: seq<Observation>)
    requires Even(b, s) && Holds(b, seen)
    ensures Holds(ExtendedUp(b, v, s, max), seen)
    decreases max - |b.values|
  {
    if v >= Last(b) && |b.values| < max {
      EvenAbove(b, s);
      HoldsAppended(b, [Last(b) + s], seen);
      HoldsUp(Appended(b, [Last(b) + s]), v, s, max, seen);
    }
  }

  // ---------------------------------------------------------------- fewer bins

  lemma MergedBlank(edges: seq<real>, g: nat)
    requires |edges| > 1 && g > 0
    ensures Merge(Blank(edges), g) == Blank(MergedEdges(edges, g))
  {
    var n := |edges| - 1;
    forall i | 0 <= i < GroupCount(n, g)
      ensures MergedValues(Zeros(n), g)[i] == 0.0
    {
      GroupBounds(n, g, i);
      assert Group(Zeros(n), g, i) == Zeros(|Group(Zeros(n), g, i)|);
      SumOfZeros(|Group(Zeros(n), g, i)|);
    }
    assert MergedValues(Zeros(n), g) == Zeros(GroupCount(n, g));
  }

  lemma HoldsMerged(b: Bins, g: nat, seen: seq<Observation>)
    requires Holds(b, seen) && g > 0
    ensures Holds(Merge(b, g), seen)
  {
    MergeKeepsTotal(b, g);
    MergedBlank(b.edges, g);
    MergeCommutesWithStream(Blank(b.edges), g, seen);
    WiderCovers(b, Merge(b, g), seen);
  }

  lemma HoldsReduced(b: Bins, s: real, limit: nat, seen: seq<Observation>)
    requires Even(b, s) && Holds(b, seen) && limit > 0
    ensures Holds(Reduced(b, s, limit).0, seen)
  {
    var g := GroupCount(|b.values|, limit);
    GroupBounds(|b.values|, limit, 0);
    var k := Padding(|b.values|, g);
    EvenPadded(b, s, k);
    HoldsAppended(b, EdgesAbove(Last(b), s, k), seen);
    HoldsMerged(Appended(b, EdgesAbove(Last(b), s, k)), g, seen);
  }

  lemma HoldsAllInOne(b: Bins, approx: real, under: bool, over: bool, seen: seq<Observation>)
    requires Holds(b, seen) && Span(b) > 0.0 && approx > 0.0 && !(under && over)
    ensures Holds(AllInOne(b, approx, under, over).0, seen)
  {
    var (lo, hi) := OneBinRange(b, approx, under, over);
    var n := |b.values|;
    OneBinRangeCovers(b, approx, under, over);
    OneBin(b);
    var merged := Merge(b, n);
    HoldsMerged(b, n, seen);
    var low := MaybePrepended(merged, lo);
    if lo != First(merged) {
      PrependKeepsTotal(merged, [lo]);
      HoldsPrepended(merged, [lo], seen);
    }
    var wide := MaybeAppended(low, hi);
    if hi != Last(low) {
      AppendKeepsTotal(low, [hi]);
      HoldsAppended(low, [hi], seen);
    }
    HoldsMerged(wide, |wide.values|, seen);
  }

  // ---------------------------------------------------------------- order and collation

  lemma CollectSwaps(b: Bins, x: real, wx: real, y: real, wy: real)
    requires |b.edges| == |b.values| + 1
    ensures Collect(Collect(b, x, wx), y, wy) == Collect(Collect(b, y, wy), x, wx)
  {
    var l, r := Collect(Collect(b, x, wx), y, wy), Collect(Collect(b, y, wy), x, wx);
    assert l.values == r.values;
  }

  lemma {:induction false} CollectLater(b: Bins, obs: seq<Observation>, v: real, w: real)
    requires |b.edges| == |b.values| + 1
    ensures CollectAll(Collect(b, v, w), obs) == Collect(CollectAll(b, obs), v, w)
    decreases |obs|
  {
    if obs != [] {
      CollectSwaps(b, v, w, obs[0].value, obs[0].weight);
      CollectLater(Collect(b, obs[0].value, obs[0].weight), obs[1..], v, w);
    }
  }

  function Collated(obs: seq<Observation>, i: nat, w: real): seq<Observation>
    requires i < |obs|
  {
    obs[i := Observation(obs[i].value, obs[i].weight + w)]
  }

  /** Adding a weight to an earlier observation of the same value is as good as another one. */
  lemma {:induction false} CollationIsCollecting(b: Bins, obs: seq<Observation>, i: nat, w: real)
    requires |b.edges| == |b.values| + 1 && i < |obs|
    ensures CollectAll(b, Collated(obs, i, w)) == Collect(CollectAll(b, obs), obs[i].value, w)
    decreases |obs|
  {
    var o := obs[0];
    if i == 0 {
      assert Collated(obs, 0, w)[1..] == obs[1..];
      var c := Collect(b, o.value, o.weight);
      assert Collect(b, o.value, o.weight + w).values == Collect(c, o.value, w).values;
      CollectLater(c, obs[1..], o.value, w);
    } else {
      assert Collated(obs, i, w)[1..] == Collated(obs[1..], i - 1, w);
      CollationIsCollecting(Collect(b, o.value, o.weight), obs[1..], i - 1, w);
    }
  }
}
