/**
 The histogram object: bin edges, bin values and outlier sums changed in place.
 */
module Histograms {
  import opened Options
  import opened HistogramModel
  import opened HistogramRange

  datatype Error =
    | BinsAlreadySetUp | TooFewEdges | NotIncreasing | BadRange | BadStep | NoBins | OutliersCounted
    | Overlap | BadGroupSize | DifferentBins

  /** An observed value; infinities are counted apart. */
  datatype Value = NegInf | Finite(v: real) | PosInf

  class Histogram {
    var binEdges: seq<real>
    var binValues: seq<real>
    var finiteUnderflow: real
    var finiteOverflow: real
    var negInf: real
    var posInf: real

    constructor ()
      ensures Now() == Bins([], [], 0.0, 0.0) && negInf == 0.0 && posInf == 0.0
    {
      binEdges, binValues := [], [];
      finiteUnderflow, finiteOverflow, negInf, posInf := 0.0, 0.0, 0.0, 0.0;
    }

    function Now(): Bins
      reads this`binEdges, this`binValues, this`finiteUnderflow, this`finiteOverflow
    {
      Bins(binEdges, binValues, finiteUnderflow, finiteOverflow)
    }

    /** std::upper_bound(): binary search for the first edge above v. */
    method FindUpperBound(v: real) returns (k: nat)
      requires Increasing(binEdges)
      ensures k == UpperBound(binEdges, v)
    {
      var lo, hi := 0, |binEdges|;
      while lo < hi
        invariant lo <= hi <= |binEdges|
        invariant (lo > 0 ==> binEdges[lo - 1] <= v) && (hi < |binEdges| ==> v < binEdges[hi])
      {
        var mid := lo + (hi - lo) / 2;
        if v < binEdges[mid] {
          hi := mid;
        } else {
          lo := mid + 1;
        }
      }
      UpperBoundSplits(binEdges, v, lo);
      k := lo;
    }

    method CollectIntoHistogram(v: real, w: real)
      requires Sane(Now()) && binEdges != []
      modifies this`binValues, this`finiteUnderflow, this`finiteOverflow
      ensures Now() == Collect(old(Now()), v, w)
    {
      var k := FindUpperBound(v);
      if k == 0 {
        finiteUnderflow := finiteUnderflow + w;
      } else if k == |binEdges| {
        finiteOverflow := finiteOverflow + w;
      } else {
        binValues := binValues[k - 1 := binValues[k - 1] + w];
      }
    }

    method CheckIncreasing(edges: seq<real>) returns (ok: bool)
      ensures ok <==> Increasing(edges)
    {
      if edges == [] {
        return true;
      }
      for i := 0 to |edges| - 1
        invariant Increasing(edges[..i + 1])
      {
        if edges[i] >= edges[i + 1] {
          return false;
        }
        OneMoreIncreasing(edges, i);
      }
      assert edges[..|edges|] == edges;
      ok := true;
    }

    method SetBinEdges(edges: seq<real>) returns (err: Option<Error>)
      requires Sane(Now())
      modifies this`binEdges, this`binValues
      ensures err == if old(binEdges) != [] then Some(BinsAlreadySetUp) else if |edges| < 2 then Some(TooFewEdges)
                     else if !Increasing(edges) then Some(NotIncreasing) else None
      ensures Now() == if err.Some? then old(Now())
                       else Bins(edges, Zeros(|edges| - 1), finiteUnderflow, finiteOverflow)
    {
      if |binEdges| != 0 {
        return Some(BinsAlreadySetUp);
      }
      if |edges| < 2 {
        return Some(TooFewEdges);
      }
      var ok := CheckIncreasing(edges);
      if !ok {
        return Some(NotIncreasing);
      }
      binEdges, binValues := edges, Zeros(|edges| - 1);
      err := None;
    }

    method CreateUniformBins(lo: real, hi: real, step: real) returns (err: Option<Error>)
      requires Sane(Now())
      modifies this`binEdges, this`binValues
      ensures err == if lo >= hi then Some(BadRange) else if step <= 0.0 then Some(BadStep)
                     else if old(binEdges) != [] then Some(BinsAlreadySetUp) else None
      ensures err.Some? ==> Now() == old(Now())
      ensures err == None ==>
                var n := UniformCount(lo, hi, step);
                n >= 1 && Now() == Bins(UniformEdges(lo, step, n + 1), Zeros(n), finiteUnderflow, finiteOverflow)
    {
      if lo >= hi {
        return Some(BadRange);
      }
      if step <= 0.0 {
        return Some(BadStep);
      }
      var numBins := Ceil((hi - lo) * (1.0 - 0.0000000001) / step);
      UniformCountIsPositive(lo, hi, step);
      var edges := LayOut(lo, step, numBins + 1);
      UniformEdgesIncrease(lo, step, numBins + 1);
      err := SetBinEdges(edges);
    }

    static method LayOut(lo: real, step: real, n: nat) returns (edges: seq<real>)
      requires step > 0.0
      ensures edges == UniformEdges(lo, step, n)
    {
      edges := [];
      for i := 0 to n
        invariant edges == UniformEdges(lo, step, i)
      {
        TimesIsProduct(step, i);
        UniformEdgesIncrease(lo, step, i + 1);
        var edge := Snap(lo + step * i as real, step);
        NextUniformEdge(lo, step, i);
        // a repeated edge would be skipped; with exact arithmetic there is none
        if edges == [] || edges[|edges| - 1] != edge {
          edges := edges + [edge];
        }
      }
    }

    method PrependBins(edges: seq<real>) returns (err: Option<Error>)
      requires Sane(Now())
      modifies this`binEdges, this`binValues
      ensures err == if old(binEdges) == [] then Some(NoBins) else if finiteUnderflow != 0.0 then Some(OutliersCounted)
                     else if !Increasing(edges) then Some(NotIncreasing)
                     else if edges != [] && edges[|edges| - 1] >= old(binEdges)[0] then Some(Overlap) else None
      ensures Now() == if err.Some? then old(Now()) else Prepended(old(Now()), edges)
    {
      if |binEdges| == 0 {
        return Some(NoBins);
      }
      if finiteUnderflow != 0.0 {
        return Some(OutliersCounted);
      }
      var ok := CheckIncreasing(edges);
      if !ok {
        return Some(NotIncreasing);
      }
      if edges != [] && edges[|edges| - 1] >= binEdges[0] {
        return Some(Overlap);
      }
      binEdges, binValues := edges + binEdges, Zeros(|edges|) + binValues;
      err := None;
    }

    method AppendBins(edges: seq<real>) returns (err: Option<Error>)
      requires Sane(Now())
      modifies this`binEdges, this`binValues
      ensures err == if old(binEdges) == [] then Some(NoBins) else if finiteOverflow != 0.0 then Some(OutliersCounted)
                     else if !Increasing(edges) then Some(NotIncreasing)
                     else if edges != [] && old(binEdges)[|old(binEdges)| - 1] >= edges[0] then Some(Overlap) else None
      ensures Now() == if err.Some? then old(Now()) else Appended(old(Now()), edges)
    {
      if |binEdges| == 0 {
        return Some(NoBins);
      }
      if finiteOverflow != 0.0 {
        return Some(OutliersCounted);
      }
      var ok := CheckIncreasing(edges);
      if !ok {
        return Some(NotIncreasing);
      }
      if edges != [] && binEdges[|binEdges| - 1] >= edges[0] {
        return Some(Overlap);
      }
      binEdges, binValues := binEdges + edges, binValues + Zeros(|edges|);
      err := None;
    }

    method ExtendDown(v: real, step: real, maxNumBins: int)
      requires Sane(Now()) && binEdges != [] && step > 0.0
      modifies this`binEdges, this`binValues
      ensures Now() == ExtendedDown(old(Now()), v, step, maxNumBins)
    {
      var originalLeftEdge := binEdges[0];
      var i := 0;
      while v < binEdges[0] && |binValues| < maxNumBins
        invariant binEdges != []
        invariant i > 0 ==> binEdges[0] == originalLeftEdge - Times(step, i - 1)
        invariant i == 0 ==> binEdges[0] == originalLeftEdge
        invariant ExtendedDown(Now(), v, step, maxNumBins) == ExtendedDown(old(Now()), v, step, maxNumBins)
        decreases maxNumBins - |binValues|, i == 0
      {
        TimesIsProduct(step, i);
        var newEdge := originalLeftEdge - step * i as real;
        if newEdge != binEdges[0] {
          binEdges, binValues := [newEdge] + binEdges, [0.0] + binValues;
          assert Zeros(1) == [0.0];
        }
        i := i + 1;
      }
    }

    method ExtendUp(v: real, step: real, maxNumBins: int)
      requires Sane(Now()) && binEdges != [] && step > 0.0
      modifies this`binEdges, this`binValues
      ensures Now() == ExtendedUp(old(Now()), v, step, maxNumBins)
    {
      var originalRightEdge := binEdges[|binEdges| - 1];
      var i := 0;
      while v >= binEdges[|binEdges| - 1] && |binValues| < maxNumBins
        invariant binEdges != []
        invariant i > 0 ==> binEdges[|binEdges| - 1] == originalRightEdge + Times(step, i - 1)
        invariant i == 0 ==> binEdges[|binEdges| - 1] == originalRightEdge
        invariant ExtendedUp(Now(), v, step, maxNumBins) == ExtendedUp(old(Now()), v, step, maxNumBins)
        decreases maxNumBins - |binValues|, i == 0
      {
        TimesIsProduct(step, i);
        var newEdge := originalRightEdge + step * i as real;
        if newEdge != binEdges[|binEdges| - 1] {
          binEdges, binValues := binEdges + [newEdge], binValues + [0.0];
          assert Zeros(1) == [0.0];
        }
        i := i + 1;
      }
    }

    method ExtendBinsTo(v: real, step: real, maxNumBins: int) returns (err: Option<Error>)
      requires Sane(Now())
      modifies this`binEdges, this`binValues
      ensures err == if old(binEdges) == [] then Some(NoBins) else if step <= 0.0 then Some(BadStep)
                     else if v < old(binEdges)[0] && finiteUnderflow != 0.0 then Some(OutliersCounted)
                     else if v >= old(binEdges)[|old(binEdges)| - 1] && finiteOverflow != 0.0 then Some(OutliersCounted)
                     else None
      ensures Now() == if err.Some? then old(Now()) else Extended(old(Now()), v, step, maxNumBins)
    {
      if |binEdges| == 0 {
        return Some(NoBins);
      }
      if step <= 0.0 {
        return Some(BadStep);
      }
      if v < binEdges[0] && finiteUnderflow != 0.0 {
        return Some(OutliersCounted);
      }
      if v >= binEdges[|binEdges| - 1] && finiteOverflow != 0.0 {
        return Some(OutliersCounted);
      }
      ExtendDownExact(Now(), v, step, maxNumBins);
      ExtendDown(v, step, maxNumBins);
      ExtendUp(v, step, maxNumBins);
      err := None;
    }

    /** mergeBins(), in place: group i is summed into bin i while later bins are still to be read. */
    method MergeBins(g: int) returns (err: Option<Error>)
      requires Sane(Now()) && binEdges != []
      modifies this`binEdges, this`binValues
      ensures err == if g <= 0 then Some(BadGroupSize) else None
      ensures Now() == if g <= 0 then old(Now()) else Merge(old(Now()), g)
    {
      if g <= 0 {
        return Some(BadGroupSize);
      }
      err := None;
      if g == 1 {
        MergeByOne(Now());
        return;
      }
      var newNumBins := (|binValues| + g - 1) / g;
      ghost var before := Now();
      MergeGroups(g, newNumBins);
      binEdges := binEdges[newNumBins := binEdges[|binEdges| - 1]];
      binValues := binValues[..newNumBins];
      binEdges := binEdges[..newNumBins + 1];
      MergedDone(before, Now(), g);
    }

    method MergeGroups(g: nat, newNumBins: nat)
      requires Sane(Now()) && binEdges != [] && g > 1 && newNumBins == GroupCount(|binValues|, g)
      modifies this`binEdges, this`binValues
      ensures MergedUpTo(old(Now()), Now(), g, newNumBins)
    {
      var numBins := |binValues|;
      for i := 0 to newNumBins
        invariant MergedUpTo(old(Now()), Now(), g, i)
      {
        var from := GroupStart(g, i, numBins);
        var count := Min(g, numBins - from);
        var binValue := SumOfBins(from, count);
        NextGroup(old(Now()), Now(), g, i, from, binValue);
        binValues := binValues[i := binValue];
        binEdges := binEdges[i := binEdges[from]];
      }
    }

    method GroupStart(g: nat, i: nat, n: nat) returns (from: nat)
      requires g > 0 && i < GroupCount(n, g)
      ensures i <= from == g * i < n
    {
      GroupBounds(n, g, i);
      assert g * i >= i;
      from := g * i;
    }

    method SumOfBins(from: nat, count: nat) returns (sum: real)
      requires from + count <= |binValues|
      ensures sum == Sum(binValues[from..from + count])
    {
      sum := 0.0;
      for j := 0 to count
        invariant sum == Sum(binValues[from..from + j])
      {
        assert binValues[from..from + j + 1] == binValues[from..from + j] + [binValues[from + j]];
        SumConcat(binValues[from..from + j], [binValues[from + j]]);
        sum := sum + binValues[from + j];
      }
    }

    /** merge() with another histogram that has the same bins. */
    method MergeWith(other: Histogram) returns (err: Option<Error>)
      requires Sane(Now()) && Sane(other.Now())
      modifies this
      ensures err == if other.binEdges == [] || old(binEdges) == [] then Some(NoBins)
                     else if old(binEdges) != old(other.binEdges) then Some(DifferentBins) else None
      ensures Now() == if err.Some? then old(Now()) else Combined(old(Now()), old(other.Now()))
      ensures err == None ==> negInf == old(negInf) + old(other.negInf) && posInf == old(posInf) + old(other.posInf)
      ensures err.Some? ==> negInf == old(negInf) && posInf == old(posInf)
    {
      if other.binEdges == [] || binEdges == [] {
        return Some(NoBins);
      }
      if binEdges != other.binEdges {
        return Some(DifferentBins);
      }
      finiteUnderflow, finiteOverflow := finiteUnderflow + other.finiteUnderflow, finiteOverflow + other.finiteOverflow;
      negInf, posInf := negInf + other.negInf, posInf + other.posInf;
      binValues := AddedUp(binValues, other.binValues);
      err := None;
    }
  }

  lemma OneMoreIncreasing(edges: seq<real>, i: nat)
    requires i + 1 < |edges| && Increasing(edges[..i + 1]) && edges[i] < edges[i + 1]
    ensures Increasing(edges[..i + 2])
  {
    var now, next := edges[..i + 1], edges[..i + 2];
    assert forall j :: 0 <= j <= i ==> next[j] == now[j] <= edges[i];
  }

  lemma NextUniformEdge(lo: real, step: real, i: nat)
    ensures UniformEdges(lo, step, i + 1) == UniformEdges(lo, step, i) + [Snap(lo + Times(step, i), step)]
  {
  }

  /** In the middle of merging in place: i groups are done, the rest is as it was. */
  ghost predicate MergedUpTo(before: Bins, now: Bins, g: nat, i: nat)
    requires g > 0 && |before.edges| == |before.values| + 1 && i <= GroupCount(|before.values|, g)
  {
    var n := |before.values|;
    && |now.values| == n && |now.edges| == n + 1 && i <= n
    && now.values[i..] == before.values[i..] && now.edges[i..] == before.edges[i..]
    && now.values[..i] == MergedValues(before.values, g)[..i] && now.edges[..i] == MergedEdges(before.edges, g)[..i]
    && now.under == before.under && now.over == before.over
  }

  lemma NextGroup(before: Bins, now: Bins, g: nat, i: nat, k: nat, binValue: real)
    requires g > 1 && |before.edges| == |before.values| + 1 && i < GroupCount(|before.values|, g)
    requires MergedUpTo(before, now, g, i) && i <= k == g * i < |before.values|
    requires binValue == Sum(now.values[k..k + Min(g, |before.values| - k)])
    ensures MergedUpTo(before, now.(values := now.values[i := binValue], edges := now.edges[i := now.edges[k]]), g, i + 1)
  {
    GroupUnread(now.values, before.values, g, i, k);
    assert now.edges[k] == now.edges[i..][k - i] == before.edges[k];
    OneMore(now.values, before.values, MergedValues(before.values, g), i, binValue);
    OneMore(now.edges, before.edges, MergedEdges(before.edges, g), i, now.edges[k]);
  }

  lemma GroupUnread(now: seq<real>, before: seq<real>, g: nat, i: nat, k: nat)
    requires i <= k == g * i < |before| == |now| && now[i..] == before[i..]
    ensures now[k..k + Min(g, |before| - k)] == Group(before, g, i)
  {
    forall j | i <= j < |now|
      ensures now[j] == before[j]
    {
      assert now[i..][j - i] == before[i..][j - i];
    }
  }

  lemma OneMore(now: seq<real>, before: seq<real>, done: seq<real>, i: nat, x: real)
    requires i < |now| == |before| && i < |done| && done[i] == x
    requires now[i..] == before[i..] && now[..i] == done[..i]
    ensures now[i := x][i + 1..] == before[i + 1..] && now[i := x][..i + 1] == done[..i + 1]
  {
    assert now[i := x][i + 1..] == now[i..][1..];
    assert now[i := x][..i + 1] == now[..i] + [x];
  }

  lemma MergedDone(before: Bins, now: Bins, g: nat)
    requires g > 0 && |before.edges| == |before.values| + 1
    requires |now.values| == GroupCount(|before.values|, g) && |now.edges| == |now.values| + 1
    requires now.values == MergedValues(before.values, g)[..|now.values|]
    requires now.edges[..|now.values|] == MergedEdges(before.edges, g)[..|now.values|]
    requires now.edges[|now.values|] == before.edges[|before.values|] && now.under == before.under && now.over == before.over
    ensures now == Merge(before, g)
  {
    var k, e := |now.values|, MergedEdges(before.edges, g);
    assert now.edges == now.edges[..k] + [now.edges[k]] && e == e[..k] + [e[k]];
  }

  lemma MergeByOne(b: Bins)
    requires |b.edges| == |b.values| + 1
    ensures Merge(b, 1) == b
  {
    forall i | 0 <= i < |b.values|
      ensures MergedValues(b.values, 1)[i] == b.values[i]
    {
      assert Group(b.values, 1, i) == [b.values[i]];
      assert Sum([b.values[i]]) == b.values[i];
    }
    assert MergedValues(b.values, 1) == b.values;
    assert MergedEdges(b.edges, 1) == b.edges;
  }
}
