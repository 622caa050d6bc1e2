/**
 Histogram bins as values: collecting into bins, merging groups of bins, extending the range, and
 how these operations relate.
 */
module HistogramModel {

  function Sum(s: seq<real>): real
  {
    if s == [] then 0.0 else s[0] + Sum(s[1..])
  }

  lemma {:induction false} SumConcat(a: seq<real>, b: seq<real>)
    ensures Sum(a + b) == Sum(a) + Sum(b)
  {
    if a == [] {
      assert a + b == b;
    } else {
      assert (a + b)[1..] == a[1..] + b;
      SumConcat(a[1..], b);
    }
  }

  lemma {:induction false} SumOfUpdate(s: seq<real>, i: nat, w: real)
    requires i < |s|
    ensures Sum(s[i := s[i] + w]) == Sum(s) + w
  {
    var t := s[i := s[i] + w];
    if i == 0 {
      assert t[1..] == s[1..];
    } else {
      assert t[1..] == s[1..][i - 1 := s[1..][i - 1] + w];
      SumOfUpdate(s[1..], i - 1, w);
    }
  }

  function Zeros(n: nat): seq<real>
  {
    seq(n, _ => 0.0)
  }

  lemma {:induction false} SumOfZeros(n: nat)
    ensures Sum(Zeros(n)) == 0.0
  {
    if n > 0 {
      assert Zeros(n)[1..] == Zeros(n - 1);
      SumOfZeros(n - 1);
    }
  }

  predicate Increasing(edges: seq<real>)
  {
    forall i, j :: 0 <= i < j < |edges| ==> edges[i] < edges[j]
  }

  /** Bins between edges, and the finite outliers on either side. */
  datatype Bins = Bins(edges: seq<real>, values: seq<real>, under: real, over: real)

  /** Either no bins, or one more edge than bins and edges strictly increasing. */
  predicate Sane(b: Bins)
  {
    Increasing(b.edges) && (|b.edges| == |b.values| + 1 >= 2 || (b.edges == [] && b.values == []))
  }

  function Total(b: Bins): real
  {
    b.under + Sum(b.values) + b.over
  }

  // ---------------------------------------------------------------- collecting

  /** The number of leading edges that are not above v. */
  function UpperBound(edges: seq<real>, v: real): (k: nat)
    ensures k <= |edges|
  {
    if edges == [] || v < edges[0] then 0 else 1 + UpperBound(edges[1..], v)
  }

  lemma {:induction false} UpperBoundSplits(edges: seq<real>, v: real, k: nat)
    requires Increasing(edges) && k <= |edges|
    ensures UpperBound(edges, v) == k <==> (k > 0 ==> edges[k - 1] <= v) && (k < |edges| ==> v < edges[k])
  {
    if edges != [] {
      assert forall i :: 0 <= i < |edges[1..]| ==> edges[1..][i] == edges[i + 1];
      if k > 0 {
        UpperBoundSplits(edges[1..], v, k - 1);
      }
    }
  }

  /** collectIntoHistogram(). */
  function Collect(b: Bins, v: real, w: real): Bins
    requires |b.edges| == |b.values| + 1
  {
    var k := UpperBound(b.edges, v);
    if k == 0 then b.(under := b.under + w)
    else if k == |b.edges| then b.(over := b.over + w)
    else b.(values := b.values[k - 1 := b.values[k - 1] + w])
  }

  /** The weight goes to the bin that contains the value, the left edge included and the right one
      not; failing that, to the outliers on its side. Nothing else changes. */
  lemma CollectHits(b: Bins, v: real, w: real)
    requires Sane(b) && b.edges != []
    ensures var c := Collect(b, v, w);
            && c.edges == b.edges && Sane(c) && Total(c) == Total(b) + w
            && c.under == b.under + (if v < b.edges[0] then w else 0.0)
            && c.over == b.over + (if v >= b.edges[|b.edges| - 1] then w else 0.0)
            && forall i :: 0 <= i < |b.values| ==>
                 c.values[i] == b.values[i] + if b.edges[i] <= v < b.edges[i + 1] then w else 0.0
  {
    var k := UpperBound(b.edges, v);
    UpperBoundSplits(b.edges, v, k);
    if 0 < k < |b.edges| {
      SumOfUpdate(b.values, k - 1, w);
    }
    forall i | 0 <= i < |b.values|
      ensures b.edges[i] <= v < b.edges[i + 1] <==> i + 1 == k
    {
      UpperBoundSplits(b.edges, v, i + 1);
    }
  }

  // ---------------------------------------------------------------- merging

  function Min(a: int, b: int): int
  {
    if a < b then a else b
  }

  function GroupCount(n: nat, g: nat): nat
    requires g > 0
  {
    (n + g - 1) / g
  }

  lemma GroupBounds(n: nat, g: nat, i: nat)
    requires g > 0
    ensures i < GroupCount(n, g) <==> g * i < n
    ensures n <= g * GroupCount(n, g) < n + g
  {
    var m := GroupCount(n, g);
    assert n + g - 1 == g * m + (n + g - 1) % g;
    if i < m {
      TimesGrow(g, i + 1, m);
    } else {
      TimesGrow(g, m, i);
    }
  }

  lemma TimesGrow(g: nat, i: nat, j: nat)
    requires i <= j
    ensures g * i <= g * j && g * (i + 1) == g * i + g
  {
  }

  /** The part of s that becomes group i; the last group may be short. */
  function Group(s: seq<real>, g: nat, i: nat): seq<real>
    requires g * i <= |s|
  {
    s[g * i..Min(g * i + g, |s|)]
  }

  /** mergeBins() on the values: sums over groups. */
  function MergedValues(values: seq<real>, g: nat): seq<real>
    requires g > 0
  {
    seq(GroupCount(|values|, g),
        i requires 0 <= i < GroupCount(|values|, g) => GroupBounds(|values|, g, i); Sum(Group(values, g, i)))
  }

  /** mergeBins() on the edges: every g-th one, and the last. */
  function MergedEdges(edges: seq<real>, g: nat): (r: seq<real>)
    requires g > 0 && |edges| > 0
    ensures |r| == GroupCount(|edges| - 1, g) + 1
    ensures r[0] == edges[0] && r[|r| - 1] == edges[|edges| - 1]
  {
    var n := |edges| - 1;
    GroupBounds(n, g, 0);
    seq(GroupCount(n, g) + 1,
        i requires 0 <= i <= GroupCount(n, g) =>
          GroupBounds(n, g, i); if i < GroupCount(n, g) then edges[g * i] else edges[n])
  }

  function Merge(b: Bins, g: nat): Bins
    requires g > 0 && |b.edges| == |b.values| + 1
  {
    b.(edges := MergedEdges(b.edges, g), values := MergedValues(b.values, g))
  }

  lemma MergedEdgesIncrease(edges: seq<real>, g: nat)
    requires g > 0 && |edges| > 0 && Increasing(edges)
    ensures Increasing(MergedEdges(edges, g))
  {
    var n, r := |edges| - 1, MergedEdges(edges, g);
    forall i, j | 0 <= i < j < |r|
      ensures r[i] < r[j]
    {
      GroupBounds(n, g, i);
      GroupBounds(n, g, j);
      assert g * i < g * j;
    }
  }

  /** Where group i starts, or the end. */
  function GroupFrom(n: nat, g: nat, i: nat): nat
  {
    Min(g * i, n)
  }

  lemma NextGroupFrom(n: nat, g: nat, i: nat)
    requires g > 0 && i <= GroupCount(n, g)
    ensures i < GroupCount(n, g) ==> GroupFrom(n, g, i) == g * i < n && GroupFrom(n, g, i + 1) == Min(g * i + g, n)
    ensures i == GroupCount(n, g) ==> GroupFrom(n, g, i) == n
  {
    GroupBounds(n, g, i);
    assert g * (i + 1) == g * i + g;
  }

  lemma SplitGroup(s: seq<real>, g: nat, i: nat, from: nat, next: nat)
    requires g * i == from <= next <= |s| && next == Min(from + g, |s|)
    ensures Sum(s[from..]) == Sum(Group(s, g, i)) + Sum(s[next..])
  {
    assert s[from..] == s[from..next] + s[next..];
    SumConcat(s[from..next], s[next..]);
  }

  /** The sum over all groups of s from group i on. */
  lemma {:induction false} SumOfGroups(s: seq<real>, g: nat, i: nat)
    requires g > 0 && i <= GroupCount(|s|, g)
    ensures Sum(MergedValues(s, g)[i..]) == Sum(s[GroupFrom(|s|, g, i)..])
    decreases GroupCount(|s|, g) - i
  {
    var m := MergedValues(s, g);
    NextGroupFrom(|s|, g, i);
    if i < |m| {
      SumOfGroups(s, g, i + 1);
      SplitGroup(s, g, i, GroupFrom(|s|, g, i), GroupFrom(|s|, g, i + 1));
      assert m[i..][1..] == m[i + 1..];
    } else {
      assert m[i..] == [] && s[|s|..] == [];
    }
  }

  /** Merging keeps the range, the outliers, the total and the order of the edges. */
  lemma MergeKeepsTotal(b: Bins, g: nat)
    requires g > 0 && Sane(b) && b.edges != []
    ensures Sane(Merge(b, g)) && Total(Merge(b, g)) == Total(b)
  {
    MergedEdgesIncrease(b.edges, g);
    SumOfGroups(b.values, g, 0);
    assert MergedValues(b.values, g)[0..] == MergedValues(b.values, g) && b.values[0..] == b.values;
  }

  lemma GroupOfUpdate(s: seq<real>, g: nat, i: nat, k: nat, w: real)
    requires g > 0 && g * i <= |s| && k < |s|
    ensures Sum(Group(s[k := s[k] + w], g, i)) == Sum(Group(s, g, i)) + if g * i <= k < g * i + g then w else 0.0
  {
    var old_, new_ := Group(s, g, i), Group(s[k := s[k] + w], g, i);
    if g * i <= k < g * i + g {
      SumOfUpdate(old_, k - g * i, w);
      assert new_ == old_[k - g * i := old_[k - g * i] + w];
    } else {
      assert new_ == old_;
    }
  }

  lemma GroupOfIndex(g: nat, k: nat, i: nat)
    requires g > 0
    ensures g * i <= k < g * i + g <==> i == k / g
  {
    assert k == g * (k / g) + k % g;
    if i < k / g {
      assert g * (i + 1) <= g * (k / g);
    } else if i > k / g {
      assert g * i >= g * (k / g + 1);
    }
  }

  lemma MergedUpperBound(edges: seq<real>, g: nat, v: real)
    requires g > 0 && |edges| > 0 && Increasing(edges)
    ensures var k := UpperBound(edges, v);
            UpperBound(MergedEdges(edges, g), v) ==
              if k == 0 then 0 else if k == |edges| then |MergedEdges(edges, g)| else (k - 1) / g + 1
  {
    var k, n, r := UpperBound(edges, v), |edges| - 1, MergedEdges(edges, g);
    UpperBoundSplits(edges, v, k);
    MergedEdgesIncrease(edges, g);
    if k == 0 {
      UpperBoundSplits(r, v, 0);
    } else if k == |edges| {
      UpperBoundSplits(r, v, |r|);
    } else {
      var i := (k - 1) / g;
      MergedAround(edges, g, k - 1, i);
      UpperBoundSplits(r, v, i + 1);
    }
  }

  /** The merged bin that takes in bin k begins no later and ends no earlier. */
  lemma MergedAround(edges: seq<real>, g: nat, k: nat, i: nat)
    requires g > 0 && k + 1 < |edges| && Increasing(edges) && i == k / g
    ensures var r := MergedEdges(edges, g);
            i + 1 < |r| && r[i] <= edges[k] && edges[k + 1] <= r[i + 1]
  {
    var n := |edges| - 1;
    GroupOfIndex(g, k, i);
    GroupBounds(n, g, i);
    GroupBounds(n, g, i + 1);
    assert g * (i + 1) == g * i + g;
  }

  lemma MergedUpdate(values: seq<real>, g: nat, k: nat, w: real)
    requires g > 0 && k < |values|
    ensures k / g < GroupCount(|values|, g)
    ensures var m := MergedValues(values, g);
            MergedValues(values[k := values[k] + w], g) == m[k / g := m[k / g] + w]
  {
    var n, i := |values|, k / g;
    GroupOfIndex(g, k, i);
    GroupBounds(n, g, i);
    var m := MergedValues(values, g);
    var l, r := MergedValues(values[k := values[k] + w], g), m[i := m[i] + w];
    forall j | 0 <= j < |l|
      ensures l[j] == r[j]
    {
      GroupBounds(n, g, j);
      GroupOfUpdate(values, g, j, k, w);
      GroupOfIndex(g, k, j);
    }
  }

  /** Merging commutes with collecting one weighted value. */
  lemma MergeCommutes(b: Bins, g: nat, v: real, w: real)
    requires g > 0 && Sane(b) && b.edges != []
    ensures Merge(Collect(b, v, w), g) == Collect(Merge(b, g), v, w)
  {
    var k := UpperBound(b.edges, v);
    MergedUpperBound(b.edges, g, v);
    if 0 < k < |b.edges| {
      MergeCommutesInside(b, g, v, w, k - 1);
    }
  }

  lemma MergeCommutesInside(b: Bins, g: nat, v: real, w: real, i: nat)
    requires g > 0 && Sane(b) && i < |b.values| && UpperBound(b.edges, v) == i + 1
    ensures Merge(Collect(b, v, w), g) == Collect(Merge(b, g), v, w)
  {
    MergedUpperBound(b.edges, g, v);
    MergedUpdate(b.values, g, i, w);
  }

  datatype Observation = Observation(value: real, weight: real)

  function CollectAll(b: Bins, obs: seq<Observation>): (r: Bins)
    requires |b.edges| == |b.values| + 1
    ensures |r.edges| == |r.values| + 1 && r.edges == b.edges
    decreases |obs|
  {
    if obs == [] then b else CollectAll(Collect(b, obs[0].value, obs[0].weight), obs[1..])
  }

  /** Collecting any stream into fine bins and then merging gives the same edges, values and
      outliers as merging first and collecting into the coarse bins. */
  lemma {:induction false} MergeCommutesWithStream(b: Bins, g: nat, obs: seq<Observation>)
    requires g > 0 && Sane(b) && b.edges != []
    ensures Merge(CollectAll(b, obs), g) == CollectAll(Merge(b, g), obs)
    decreases |obs|
  {
    if obs != [] {
      var b' := Collect(b, obs[0].value, obs[0].weight);
      CollectHits(b, obs[0].value, obs[0].weight);
      MergeCommutes(b, g, obs[0].value, obs[0].weight);
      MergeCommutesWithStream(b', g, obs[1..]);
    }
  }

  function WeightOf(obs: seq<Observation>): real
  {
    if obs == [] then 0.0 else obs[0].weight + WeightOf(obs[1..])
  }

  lemma {:induction false} CollectAllKeepsTotal(b: Bins, obs: seq<Observation>)
    requires Sane(b) && b.edges != []
    ensures Sane(CollectAll(b, obs)) && Total(CollectAll(b, obs)) == Total(b) + WeightOf(obs)
    decreases |obs|
  {
    if obs != [] {
      CollectHits(b, obs[0].value, obs[0].weight);
      CollectAllKeepsTotal(Collect(b, obs[0].value, obs[0].weight), obs[1..]);
    }
  }

  // ---------------------------------------------------------------- adding up histograms

  function AddedUp(a: seq<real>, b: seq<real>): seq<real>
    requires |a| == |b|
  {
    seq(|a|, i requires 0 <= i < |a| => a[i] + b[i])
  }

  /** merge(): two histograms over the same edges, bin by bin. */
  function Combined(a: Bins, b: Bins): Bins
    requires |a.values| == |b.values|
  {
    Bins(a.edges, AddedUp(a.values, b.values), a.under + b.under, a.over + b.over)
  }

  lemma CombineCommutes(a: Bins, b: Bins, v: real, w: real)
    requires Sane(a) && a.edges == b.edges != [] && |a.values| == |b.values|
    ensures Combined(a, Collect(b, v, w)) == Collect(Combined(a, b), v, w)
  {
    var k := UpperBound(b.edges, v);
    if 0 < k < |b.edges| {
      assert Combined(a, Collect(b, v, w)).values == Collect(Combined(a, b), v, w).values;
    }
  }

  lemma {:induction false} CombineCommutesWithStream(a: Bins, b: Bins, obs: seq<Observation>)
    requires Sane(a) && Sane(b) && a.edges == b.edges != []
    ensures Combined(a, CollectAll(b, obs)) == CollectAll(Combined(a, b), obs)
    decreases |obs|
  {
    if obs != [] {
      CombineCommutes(a, b, obs[0].value, obs[0].weight);
      CollectHits(b, obs[0].value, obs[0].weight);
      CombineCommutesWithStream(a, Collect(b, obs[0].value, obs[0].weight), obs[1..]);
    }
  }

  lemma {:induction false} CollectAllConcat(b: Bins, xs: seq<Observation>, ys: seq<Observation>)
    requires |b.edges| == |b.values| + 1
    ensures CollectAll(b, xs + ys) == CollectAll(CollectAll(b, xs), ys)
    decreases |xs|
  {
    if xs == [] {
      assert xs + ys == ys;
    } else {
      assert (xs + ys)[1..] == xs[1..] + ys;
      CollectAllConcat(Collect(b, xs[0].value, xs[0].weight), xs[1..], ys);
    }
  }

  /** merge() of two histograms that collected separately over the same edges is the histogram
      that collected everything. */
  lemma MergeIsCollectingEverything(edges: seq<real>, xs: seq<Observation>, ys: seq<Observation>)
    requires |edges| >= 2 && Increasing(edges)
    ensures var empty := Bins(edges, Zeros(|edges| - 1), 0.0, 0.0);
            |CollectAll(empty, xs).values| == |CollectAll(empty, ys).values|
            && Combined(CollectAll(empty, xs), CollectAll(empty, ys)) == CollectAll(empty, xs + ys)
  {
    var empty := Bins(edges, Zeros(|edges| - 1), 0.0, 0.0);
    var a := CollectAll(empty, xs);
    CollectAllKeepsTotal(empty, xs);
    CombineCommutesWithStream(a, empty, ys);
    assert AddedUp(a.values, Zeros(|a.values|)) == a.values;
    CollectAllConcat(empty, xs, ys);
  }
}
