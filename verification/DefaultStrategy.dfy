/**
 The default histogram strategy at work on a histogram: precollection, the first bins, and from
 then on extension and merging, so that the histogram always holds all that was collected.
 */
module DefaultStrategies {
  import opened Options
  import opened Bits
  import opened HistogramModel
  import opened HistogramRange
  import opened HistogramRounding
  import opened EvenBins
  import opened HistogramReplay
  import opened StrategyModel
  import opened HistogramLayout
  import opened Histograms

  const DEFAULT_NUM_BINS := 60

  datatype Mode = Auto | Integers | Reals

  /** How collecting a value ends: normally, with the strategy's assertion that there are no finite
      outliers failing, or with the error that weighted statistics have no overflow count. */
  datatype Outcome = Fine | AssertionFailed | CountUnavailable

  ghost function Content(b: Bins, obs: seq<Observation>): Bins
    requires |b.edges| == |b.values| + 1
  {
    CollectAll(b, obs)
  }

  /** Collecting one or the other makes no difference to any bins. */
  ghost predicate SameContent(xs: seq<Observation>, ys: seq<Observation>)
  {
    forall b: Bins {:trigger Content(b, xs)} {:trigger Content(b, ys)} ::
      |b.edges| == |b.values| + 1 ==> Content(b, xs) == Content(b, ys)
  }

  ghost predicate Within(obs: seq<Observation>, min: real, max: real)
  {
    forall i :: 0 <= i < |obs| ==> min <= obs[i].value <= max
  }

  /** The error of mergeAllBinsIntoOne(): it asks for an overflow count. */
  predicate AsksForCount(b: Bins, target: nat, under: bool, v: real)
    requires b.edges != [] && target > 0
  {
    under && v >= Last(b) && ApproxBinSize(b, v, target) >= Span(b)
  }

  lemma {:induction false} WeightOfMore(xs: seq<Observation>, o: Observation)
    ensures WeightOf(xs + [o]) == WeightOf(xs) + o.weight
  {
    if xs == [] {
      assert xs + [o] == [o];
    } else {
      assert (xs + [o])[1..] == xs[1..] + [o];
      WeightOfMore(xs[1..], o);
    }
  }

  lemma SameContentSameWeight(xs: seq<Observation>, ys: seq<Observation>)
    requires SameContent(xs, ys)
    ensures WeightOf(xs) == WeightOf(ys)
  {
    var b := Blank([0.0, 1.0]);
    assert Content(b, xs) == Content(b, ys);
    CollectAllKeepsTotal(b, xs);
    CollectAllKeepsTotal(b, ys);
  }

  lemma OneMoreAt(b: Bins, xs: seq<Observation>, ys: seq<Observation>, o: Observation)
    requires |b.edges| == |b.values| + 1 && CollectAll(b, xs) == CollectAll(b, ys)
    ensures CollectAll(b, xs + [o]) == CollectAll(b, ys + [o])
  {
    CollectAllSnoc(b, xs, o);
    CollectAllSnoc(b, ys, o);
  }

  lemma OneMoreSame(xs: seq<Observation>, ys: seq<Observation>, o: Observation)
    requires SameContent(xs, ys)
    ensures SameContent(xs + [o], ys + [o])
  {
    forall b: Bins | |b.edges| == |b.values| + 1
      ensures Content(b, xs + [o]) == Content(b, ys + [o])
    {
      assert Content(b, xs) == Content(b, ys);
      OneMoreAt(b, xs, ys, o);
    }
  }

  lemma OneMoreCollatedAt(b: Bins, xs: seq<Observation>, ys: seq<Observation>, i: nat, o: Observation)
    requires |b.edges| == |b.values| + 1 && CollectAll(b, xs) == CollectAll(b, ys)
    requires i < |xs| && xs[i].value == o.value
    ensures CollectAll(b, Collated(xs, i, o.weight)) == CollectAll(b, ys + [o])
  {
    CollationIsCollecting(b, xs, i, o.weight);
    CollectAllSnoc(b, ys, o);
  }

  lemma OneMoreCollated(xs: seq<Observation>, ys: seq<Observation>, i: nat, o: Observation)
    requires SameContent(xs, ys) && i < |xs| && xs[i].value == o.value
    ensures SameContent(Collated(xs, i, o.weight), ys + [o])
  {
    forall b: Bins | |b.edges| == |b.values| + 1
      ensures Content(b, Collated(xs, i, o.weight)) == Content(b, ys + [o])
    {
      assert Content(b, xs) == Content(b, ys);
      OneMoreCollatedAt(b, xs, ys, i, o);
    }
  }

  lemma PrecollectedHolds(edges: seq<real>, s: real, values: seq<Observation>, seen: seq<Observation>, min: real, max: real)
    requires edges != [] && Even(Blank(edges), s) && Covers(Blank(edges), min) && Covers(Blank(edges), max)
    requires SameContent(values, seen) && Within(seen, min, max)
    ensures var b := CollectAll(Blank(edges), values);
            Even(b, s) && Holds(b, seen) && |b.values| == |edges| - 1
  {
    var blank := Blank(edges);
    assert Content(blank, values) == Content(blank, seen);
    WithinCovered(blank, seen, min, max);
    CollectedHolds(blank, s, seen);
  }

  lemma CollectedHolds(blank: Bins, s: real, seen: seq<Observation>)
    requires Even(blank, s) && blank == Blank(blank.edges) && AllCovered(blank, seen)
    ensures var b := CollectAll(blank, seen); Even(b, s) && Holds(b, seen) && |b.values| == |blank.values|
  {
    CollectAllKeepsTotal(blank, seen);
    WiderCovers(blank, CollectAll(blank, seen), seen);
  }

  lemma WithinCovered(b: Bins, seen: seq<Observation>, min: real, max: real)
    requires b.edges != [] && Covers(b, min) && Covers(b, max) && Within(seen, min, max)
    ensures AllCovered(b, seen)
  {
  }

  class DefaultStrategy {
    const hist: Histogram
    const weighted: bool
    const numBinsHint: int
    const mode: Mode
    const numToPrecollect: nat
    const numToCollate: nat
    const rangeUnchangedThreshold: int
    var inPrecollection: bool
    var values: seq<Observation>
    var lastRange: Option<real>
    var rangeUnchangedCounter: int
    var finiteMin: Option<real>
    var finiteMax: Option<real>
    var binSize: real
    ghost var seen: seq<Observation>
    ghost var given: real           // all weight ever collected, that of infinite values included

    constructor (hist: Histogram, weighted: bool, numBinsHint: int, mode: Mode)
      requires hist.Now() == Bins([], [], 0.0, 0.0) && hist.negInf == 0.0 && hist.posInf == 0.0
      ensures Valid() <==> numBinsHint == -1 || Ample(numBinsHint)
      ensures seen == [] && inPrecollection && this.hist == hist && this.weighted == weighted
      ensures Conserved() && given == 0.0
      ensures numToPrecollect == 1000 && numToCollate == 10 && rangeUnchangedThreshold == 50
      ensures this.numBinsHint == numBinsHint && this.mode == mode
    {
      this.hist, this.weighted, this.numBinsHint, this.mode := hist, weighted, numBinsHint, mode;
      numToPrecollect, numToCollate, rangeUnchangedThreshold := 1000, 10, 50;
      inPrecollection, values, lastRange, rangeUnchangedCounter := true, [], None, 0;
      finiteMin, finiteMax, binSize, seen, given := None, None, 0.0, [], 0.0;
    }

    function Target(): nat
      requires numBinsHint == -1 || Ample(numBinsHint)
    {
      if numBinsHint == -1 then DEFAULT_NUM_BINS else numBinsHint
    }

    ghost predicate Configured()
      reads this`finiteMin, this`finiteMax, hist`negInf, hist`posInf
    {
      && (numBinsHint == -1 || Ample(numBinsHint)) && hist.negInf >= 0.0 && hist.posInf >= 0.0
      && (finiteMin.Some? <==> finiteMax.Some?) && (finiteMin.Some? ==> finiteMin.value <= finiteMax.value)
    }

    /** During precollection there are no bins, and the kept values stand for all that was seen. */
    ghost predicate Precollecting()
      reads this, hist
    {
      && Configured() && hist.Now() == Bins([], [], 0.0, 0.0) && SameContent(values, seen)
      && (finiteMin == None ==> seen == [] && values == [])
      && (finiteMin.Some? ==> values != [] && Within(seen, finiteMin.value, finiteMax.value))
    }

    /** Afterwards the bins are all of one width, and hold all that was seen. */
    ghost predicate Binning()
      reads this, hist
    {
      && Configured() && Even(hist.Now(), binSize) && Holds(hist.Now(), seen)
      && |hist.binValues| <= 4 * Target() + 2
    }

    ghost predicate Valid()
      reads this, hist
    {
      if inPrecollection then Precollecting() else Binning()
    }

    /** The weight held for finite values: by the kept values or, later, by bins and outliers. */
    function Kept(): real
      reads this`inPrecollection, this`values
      reads hist`binEdges, hist`binValues, hist`finiteUnderflow, hist`finiteOverflow
    {
      if inPrecollection then WeightOf(values) else Total(hist.Now())
    }

    /** All weight given is held somewhere. */
    ghost predicate Conserved()
      reads this, hist
    {
      Kept() + hist.negInf + hist.posInf == given
    }

    lemma KeptIsSeen()
      requires Valid()
      ensures Kept() == WeightOf(seen)
    {
      if inPrecollection {
        SameContentSameWeight(values, seen);
      } else {
        HoldsMeansNoOutliers(hist.Now(), seen);
      }
    }

    ghost function Under(): bool
      reads hist`negInf
    {
      hist.negInf > 0.0
    }

    ghost function Over(): bool
      reads hist`posInf
    {
      hist.posInf > 0.0
    }

    /** reduceNumBinsTo(). */
    method ReduceNumBinsTo(limit: nat)
      requires limit > 0 && Even(hist.Now(), binSize) && hist.finiteOverflow == 0.0
      modifies hist`binEdges, hist`binValues, this`binSize
      ensures (hist.Now(), binSize) == Reduced(old(hist.Now()), old(binSize), limit)
    {
      var numBins := |hist.binValues|;
      var groupSize := (numBins + limit - 1) / limit;
      ghost var b, s := hist.Now(), binSize;
      GroupBounds(numBins, limit, 0);
      PadTo(groupSize);
      var err := hist.MergeBins(groupSize);
      ScaleBinSize(groupSize);
      ReducedIs(b, s, limit, groupSize, hist.Now(), binSize);
    }

    method ScaleBinSize(groupSize: nat)
      modifies this`binSize
      ensures binSize == Times(old(binSize), groupSize)
    {
      TimesIsProduct(binSize, groupSize);
      binSize := binSize * groupSize as real;
    }

    /** Creates more bins to get a multiple of the group size. */
    method PadTo(groupSize: nat)
      requires groupSize > 0 && Even(hist.Now(), binSize) && hist.finiteOverflow == 0.0
      modifies hist`binEdges, hist`binValues
      ensures var b := old(hist.Now());
              Sane(hist.Now()) && hist.Now() == Appended(b, EdgesAbove(Last(b), binSize, Padding(|b.values|, groupSize)))
    {
      var numBins := |hist.binValues|;
      NoPadding(hist.Now(), binSize);
      if numBins % groupSize != 0 {
        var numBinsToAdd := groupSize - numBins % groupSize;
        var newEdges := LayEdges(hist.binEdges[numBins], binSize, numBinsToAdd);
        EdgesAboveIncrease(hist.binEdges[numBins], binSize, numBinsToAdd);
        EvenPadded(hist.Now(), binSize, numBinsToAdd);
        var err := hist.AppendBins(newEdges);
      }
    }

    static method LayEdges(lastEdge: real, s: real, n: nat) returns (edges: seq<real>)
      requires s > 0.0
      ensures edges == EdgesAbove(lastEdge, s, n)
    {
      edges := [];
      for i := 0 to n
        invariant edges == EdgesAbove(lastEdge, s, i)
      {
        TimesIsProduct(s, i + 1);
        EdgesAboveIncrease(lastEdge, s, i + 1);
        NextEdgeAbove(lastEdge, s, i);
        var newEdge := lastEdge + (i + 1) as real * s;
        if newEdge > lastEdge && (edges == [] || newEdge > edges[|edges| - 1]) {
          edges := edges + [newEdge];
        }
      }
    }

    /** The range and size of the one bin, or the error of asking for an overflow count. */
    method ChooseRange(approx: real) returns (thrown: bool, lo: real, hi: real, newBinSize: real)
      requires hist.binEdges != [] && Span(hist.Now()) > 0.0 && approx > 0.0 && !(Under() && Over())
      requires hist.negInf >= 0.0 && hist.posInf >= 0.0
      ensures thrown <==> weighted && Under()
      ensures !thrown ==> (lo, hi) == OneBinRange(hist.Now(), approx, Under(), Over()) && newBinSize == hi - lo
    {
      thrown, lo, hi := false, hist.binEdges[0], hist.binEdges[|hist.binEdges| - 1];
      newBinSize := RoundToOneTwoFive(approx);
      if newBinSize < hi - lo {
        newBinSize := SnapUp(hi - lo, newBinSize);
      }
      OneBinSizeCovers(hi - lo, approx);
      if hist.negInf == 0.0 && hist.posInf == 0.0 {
        lo, hi := SnapDown(lo, newBinSize), SnapUp(hi, newBinSize);
        newBinSize := hi - lo;
      } else if hist.negInf == 0.0 {
        lo := hi - newBinSize;
      } else if weighted {
        thrown := true;
      } else {
        hi := lo + newBinSize;
      }
    }

    /** mergeAllBinsIntoOne(). */
    method MergeAllBinsIntoOne(approx: real) returns (thrown: bool)
      requires Even(hist.Now(), binSize) && approx > 0.0 && !(Under() && Over())
      requires hist.finiteUnderflow == 0.0 && hist.finiteOverflow == 0.0 && hist.negInf >= 0.0 && hist.posInf >= 0.0
      requires Span(hist.Now()) > 0.0
      modifies hist`binEdges, hist`binValues, this`binSize
      ensures thrown <==> weighted && Under()
      ensures thrown ==> hist.Now() == old(hist.Now()) && binSize == old(binSize)
      ensures !thrown ==> (hist.Now(), binSize) == AllInOne(old(hist.Now()), approx, Under(), Over())
    {
      var lo, hi, newBinSize;
      thrown, lo, hi, newBinSize := ChooseRange(approx);
      if thrown {
        return;
      }
      ghost var b := hist.Now();
      OneBinRangeCovers(b, approx, Under(), Over());
      MergeWidenMerge(lo, hi);
      binSize := newBinSize;
      AllInOneIs(b, approx, Under(), Over(), lo, hi, hist.Now());
    }

    /** The four changes that mergeAllBinsIntoOne() makes to the histogram. */
    method MergeWidenMerge(lo: real, hi: real)
      requires Sane(hist.Now()) && hist.binEdges != [] && hist.finiteUnderflow == 0.0 && hist.finiteOverflow == 0.0
      requires lo <= First(hist.Now()) && Last(hist.Now()) <= hi
      modifies hist`binEdges, hist`binValues
      ensures old(hist.binValues) != []
      ensures var b := old(hist.Now());
              var wide := MaybeAppended(MaybePrepended(Merge(b, |b.values|), lo), hi);
              |wide.values| > 0 && |wide.edges| == |wide.values| + 1 && hist.Now() == Merge(wide, |wide.values|)
    {
      OneBin(hist.Now());
      ghost var merged := Merge(hist.Now(), |hist.binValues|);
      Widened(merged, lo, hi);
      var err := hist.MergeBins(|hist.binValues|);
      if lo != hist.binEdges[0] {
        PrependKeepsTotal(merged, [lo]);
        err := hist.PrependBins([lo]);
      }
      assert hist.Now() == MaybePrepended(merged, lo);
      if hi != hist.binEdges[|hist.binEdges| - 1] {
        err := hist.AppendBins([hi]);
      }
      err := hist.MergeBins(|hist.binValues|);
    }

    /** extendBinsTo(). */
    method ExtendBinsTo(v: real) returns (thrown: bool)
      requires Configured() && Even(hist.Now(), binSize) && hist.finiteUnderflow == 0.0 && hist.finiteOverflow == 0.0
      modifies hist`binEdges, hist`binValues, this`binSize
      ensures var b := old(hist.Now());
              thrown <==> weighted && !Covers(b, v) && !Refused(b, v, Under(), Over()) && AsksForCount(b, Target(), Under(), v)
      ensures thrown ==> hist.Now() == old(hist.Now()) && binSize == old(binSize)
      ensures !thrown ==>
                (hist.Now(), binSize) == ExtendTo(old(hist.Now()), old(binSize), Target(), Under(), Over(), v)
    {
      var firstEdge, lastEdge := hist.binEdges[0], hist.binEdges[|hist.binEdges| - 1];
      var isUnderflow, isOverflow := v < firstEdge, v >= lastEdge;
      thrown := false;
      FirstBeforeLast(hist.Now());
      if !isUnderflow && !isOverflow {
        return;
      }
      if isUnderflow && hist.finiteUnderflow + hist.negInf > 0.0 {
        return;
      }
      if isOverflow && hist.finiteOverflow + hist.posInf > 0.0 {
        return;
      }
      thrown := ExtendOutside(v);
    }

    method ExtendOutside(v: real) returns (thrown: bool)
      requires Configured() && Even(hist.Now(), binSize) && hist.finiteUnderflow == 0.0 && hist.finiteOverflow == 0.0
      requires !Covers(hist.Now(), v) && !Refused(hist.Now(), v, Under(), Over())
      modifies hist`binEdges, hist`binValues, this`binSize
      ensures thrown <==> weighted && AsksForCount(old(hist.Now()), Target(), Under(), v)
      ensures thrown ==> hist.Now() == old(hist.Now()) && binSize == old(binSize)
      ensures !thrown ==>
                (hist.Now(), binSize) == ExtendTo(old(hist.Now()), old(binSize), Target(), Under(), Over(), v)
    {
      ghost var b, s := hist.Now(), binSize;
      FirstBeforeLast(b);
      thrown := Stretch(v);
      if !thrown {
        StretchedOk(b, s, Target(), Under() && v >= Last(b), Over() && v < First(b), v);
        ExtendAndReduce(v);
      }
    }

    method Stretch(v: real) returns (thrown: bool)
      requires Configured() && Even(hist.Now(), binSize) && hist.finiteUnderflow == 0.0 && hist.finiteOverflow == 0.0
      requires !Covers(hist.Now(), v) && !Refused(hist.Now(), v, Under(), Over())
      modifies hist`binEdges, hist`binValues, this`binSize
      ensures !(Under() && v >= Last(old(hist.Now())) && Over() && v < First(old(hist.Now())))
      ensures thrown <==> weighted && AsksForCount(old(hist.Now()), Target(), Under(), v)
      ensures thrown ==> hist.Now() == old(hist.Now()) && binSize == old(binSize)
      ensures !thrown ==>
                var b := old(hist.Now());
                (hist.Now(), binSize) ==
                  Stretched(b, old(binSize), Target(), Under() && v >= Last(b), Over() && v < First(b), v)
    {
      var approx := ApproxBinSize(hist.Now(), v, Target());
      SpanIsCount(hist.Now(), binSize);
      ApproxIsPositive(hist.Now(), v, Target());
      thrown := false;
      if approx >= Span(hist.Now()) {
        thrown := MergeAllBinsIntoOne(approx);
      }
    }

    method ExtendAndReduce(v: real)
      requires Even(hist.Now(), binSize) && hist.finiteUnderflow == 0.0 && hist.finiteOverflow == 0.0
      requires numBinsHint == -1 || Ample(numBinsHint)
      modifies hist`binEdges, hist`binValues, this`binSize
      ensures var r := Extended(old(hist.Now()), v, old(binSize), INT_MAX);
              Even(r, old(binSize)) && (hist.Now(), binSize) == Capped(r, old(binSize), Target())
    {
      ExtendedOk(hist.Now(), v, binSize);
      var err := hist.ExtendBinsTo(v, binSize, INT_MAX);
      if |hist.binValues| > Target() * 3 / 2 {
        ReduceNumBinsTo(Target());
      }
    }

    // -------------------------------------------------------------- precollection

    method NoteRange(v: real)
      requires Configured()
      modifies this`finiteMin, this`finiteMax
      ensures Configured() && finiteMin.Some? && finiteMin.value <= v <= finiteMax.value
      ensures finiteMin == (if old(finiteMin) == None || v < old(finiteMin).value then Some(v) else old(finiteMin))
      ensures finiteMax == (if old(finiteMax) == None || v > old(finiteMax).value then Some(v) else old(finiteMax))
    {
      if finiteMin == None || v < finiteMin.value {
        finiteMin := Some(v);
      }
      if finiteMax == None || v > finiteMax.value {
        finiteMax := Some(v);
      }
    }

    /** Where among the first few kept values a whole number is, if it is there. */
    ghost predicate KeptAt(i: nat, v: real)
      reads this`values
    {
      i < |values| && i < numToCollate && values[i].value == v && forall k :: 0 <= k < i ==> values[k].value != v
    }

    /** precollect(): keeps the value, adding its weight to one of the first few kept values if
        it is a whole number that is among them; true when there is enough. */
    method Precollect(v: real, w: real) returns (over: bool)
      requires finiteMin.Some? && finiteMax.Some?
      modifies this`values, this`lastRange, this`rangeUnchangedCounter
      ensures values != [] && |old(values)| <= |values| <= |old(values)| + 1
      ensures SameContent(old(values), seen) ==> SameContent(values, seen + [Observation(v, w)])
      ensures lastRange == Some(finiteMax.value - finiteMin.value)
      ensures rangeUnchangedCounter == if lastRange == old(lastRange) then old(rangeUnchangedCounter) + 1 else 0
      ensures over <==> rangeUnchangedCounter >= rangeUnchangedThreshold || |values| > numToPrecollect
    {
      KeepValue(v, w);
      var range := finiteMax.value - finiteMin.value;
      if lastRange == Some(range) {
        rangeUnchangedCounter := rangeUnchangedCounter + 1;
      } else {
        lastRange, rangeUnchangedCounter := Some(range), 0;
      }
      over := rangeUnchangedCounter >= rangeUnchangedThreshold || |values| > numToPrecollect;
    }

    method KeepValue(v: real, w: real)
      modifies this`values
      ensures values != [] && |old(values)| <= |values| <= |old(values)| + 1
      ensures (IsWhole(v) && exists i: nat :: old(KeptAt(i, v))) ==>
                exists i: nat :: old(KeptAt(i, v)) && values == old(values)[i := Observation(v, old(values)[i].weight + w)]
      ensures !(IsWhole(v) && exists i: nat :: old(KeptAt(i, v))) ==> values == old(values) + [Observation(v, w)]
      ensures SameContent(old(values), seen) ==> SameContent(values, seen + [Observation(v, w)])
    {
      ghost var o := Observation(v, w);
      if v == v.Floor as real {
        var searchLimit := Min(numToCollate, |values|);
        var i := 0;
        while i < searchLimit && values[i].value != v
          invariant 0 <= i <= searchLimit && forall k :: 0 <= k < i ==> values[k].value != v
        {
          i := i + 1;
        }
        if i < searchLimit {
          if SameContent(values, seen) {
            OneMoreCollated(values, seen, i, o);
          }
          assert old(KeptAt(i, v));
          values := values[i := Observation(v, values[i].weight + w)];
          return;
        }
      }
      if SameContent(values, seen) {
        OneMoreSame(values, seen, o);
      }
      values := values + [Observation(v, w)];
    }

    /** Whether the bins are to be for integers: if asked for, or if that is left open and all values
        kept are whole numbers and one of them is not zero. */
    ghost predicate WantsIntegers()
      reads this`values
    {
      || mode == Integers
      || (&& mode == Auto && (forall i :: 0 <= i < |values| ==> IsWhole(values[i].value))
          && exists i :: 0 <= i < |values| && values[i].value != 0.0)
    }

    method UseIntegers() returns (integers: bool)
      ensures integers <==> WantsIntegers()
    {
      var allIntegers, allZeroes := true, true;
      for i := 0 to |values|
        invariant allIntegers <==> forall k :: 0 <= k < i ==> IsWhole(values[k].value)
        invariant allZeroes <==> forall k :: 0 <= k < i ==> values[k].value == 0.0
      {
        if allIntegers && values[i].value != values[i].value.Floor as real {
          allIntegers := false;
        }
        if allZeroes && values[i].value != 0.0 {
          allZeroes := false;
        }
      }
      integers := mode == Integers || (mode == Auto && allIntegers && !allZeroes);
    }

    /** createBins(). */
    method CreateBins()
      requires Precollecting()
      modifies hist`binEdges, hist`binValues, this`binSize
      ensures hist.binEdges != [] && hist.Now() == Blank(hist.binEdges) && Even(hist.Now(), binSize)
      ensures |hist.binValues| <= 4 * Target() + 1
      ensures finiteMin.Some? ==> Covers(hist.Now(), finiteMin.value) && Covers(hist.Now(), finiteMax.value)
      ensures if values == [] then hist.binEdges == [0.0, 1.0] && binSize == 1.0
              else |hist.binEdges| >= 2
                   && FirstLayout(hist.binEdges, binSize, finiteMin.value, finiteMax.value, Target(), WantsIntegers())
    {
      if values == [] {
        binSize := 1.0;
        UnitBin();
        var err := hist.CreateUniformBins(0.0, 1.0, binSize);
        return;
      }
      LayBins();
      // the bins cover the data already, so these two calls change nothing
      ExtendToCovered(finiteMin.value);
      ExtendToCovered(finiteMax.value);
    }

    method LayBins()
      requires Precollecting() && finiteMin.Some?
      modifies hist`binEdges, hist`binValues, this`binSize
      ensures hist.binEdges != [] && hist.Now() == Blank(hist.binEdges) && Even(hist.Now(), binSize)
      ensures |hist.binValues| <= 4 * Target() + 1
      ensures Covers(hist.Now(), finiteMin.value) && Covers(hist.Now(), finiteMax.value)
      ensures |hist.binEdges| >= 2
              && FirstLayout(hist.binEdges, binSize, finiteMin.value, finiteMax.value, Target(), WantsIntegers())
    {
      var integers := UseIntegers();
      var (rangeMin, rangeMax) := RoomyRange(finiteMin.value, finiteMax.value);
      binSize := BinSize(Share(rangeMax - rangeMin, Target()), integers);
      LayoutCovers(finiteMin.value, finiteMax.value, Target(), integers);
      LayRange(SnapDown(rangeMin, binSize), SnapUp(rangeMax, binSize), integers);
    }

    method LayRange(lo: real, hi: real, ghost integers: bool)
      requires hist.Now() == Bins([], [], 0.0, 0.0) && finiteMin.Some? && finiteMax.Some?
      requires numBinsHint == -1 || Ample(numBinsHint)
      requires LaysOut(lo, hi, binSize, finiteMin.value, finiteMax.value, Target(), integers)
      modifies hist`binEdges, hist`binValues
      ensures hist.binEdges != [] && hist.Now() == Blank(hist.binEdges) && Even(hist.Now(), binSize)
      ensures |hist.binValues| <= 4 * Target() + 1
      ensures Covers(hist.Now(), finiteMin.value) && Covers(hist.Now(), finiteMax.value)
      ensures |hist.binEdges| >= 2
              && FirstLayout(hist.binEdges, binSize, finiteMin.value, finiteMax.value, Target(), integers)
    {
      var err := hist.CreateUniformBins(lo, hi, binSize);
    }

    method ExtendToCovered(v: real)
      requires Configured() && Even(hist.Now(), binSize) && hist.finiteUnderflow == 0.0 && hist.finiteOverflow == 0.0
      requires Covers(hist.Now(), v)
      modifies hist`binEdges, hist`binValues, this`binSize
      ensures hist.Now() == old(hist.Now()) && binSize == old(binSize)
    {
      var thrown := ExtendBinsTo(v);
    }

    method MoveValuesIntoHistogram()
      requires hist.binEdges != [] && Sane(hist.Now())
      modifies hist`binValues, hist`finiteUnderflow, hist`finiteOverflow, this`values
      ensures hist.Now() == CollectAll(old(hist.Now()), old(values)) && values == []
    {
      ghost var b := hist.Now();
      for i := 0 to |values|
        invariant Sane(hist.Now()) && hist.binEdges == b.edges && values == old(values)
        invariant hist.Now() == CollectAll(b, values[..i])
      {
        CollectAllSnoc(b, values[..i], values[i]);
        assert values[..i + 1] == values[..i] + [values[i]];
        CollectHits(hist.Now(), values[i].value, values[i].weight);
        hist.CollectIntoHistogram(values[i].value, values[i].weight);
      }
      assert values[..|values|] == values;
      values := [];
    }

    /** setUpBins(): from now on the bins hold what was precollected. */
    method SetUpBins()
      requires inPrecollection && Precollecting()
      modifies this`binSize, this`values, this`inPrecollection
      modifies hist`binEdges, hist`binValues, hist`finiteUnderflow, hist`finiteOverflow
      ensures !inPrecollection && Binning()
    {
      CreateBins();
      if finiteMin.Some? {
        PrecollectedHolds(hist.binEdges, binSize, values, seen, finiteMin.value, finiteMax.value);
      } else {
        CollectedHolds(hist.Now(), binSize, seen);
      }
      MoveValuesIntoHistogram();
      inPrecollection := false;
    }

    // -------------------------------------------------------------- collecting

    /** collectWeighted() of the strategy. During precollection it always succeeds. Afterwards the
        assertion fails exactly when a value with some weight falls outside of the bins on a side
        on which an infinite value has been counted. */
    method CollectWeighted(v: real, w: real) returns (outcome: Outcome)
      requires Valid()
      modifies this, hist
      ensures old(inPrecollection) ==> outcome == Fine && seen == old(seen) + [Observation(v, w)]
      ensures old(inPrecollection) ==>
                && (rangeUnchangedCounter >= rangeUnchangedThreshold ==> !inPrecollection)
                && (|old(values)| > numToPrecollect ==> !inPrecollection)
                && (rangeUnchangedCounter < rangeUnchangedThreshold && |old(values)| < numToPrecollect ==> inPrecollection)
      ensures !old(inPrecollection) ==> !inPrecollection
      ensures !old(inPrecollection) ==>
                var b := old(hist.Now());
                var refused := Refused(b, v, old(Under()), old(Over()));
                && (outcome == CountUnavailable <==>
                      weighted && !Covers(b, v) && !refused && AsksForCount(b, Target(), old(Under()), v))
                && (outcome == AssertionFailed <==> refused && w != 0.0)
                && (outcome == Fine ==> |hist.binValues| <= |b.values| || |hist.binValues| <= BinLimit(Target()))
                && (outcome == Fine ==> seen == if refused then old(seen) else old(seen) + [Observation(v, w)])
      ensures outcome == Fine ==> Valid()
      ensures outcome != CountUnavailable ==> Kept() == old(Kept()) + w
      ensures outcome == CountUnavailable ==> Kept() == old(Kept())
      ensures hist.negInf == old(hist.negInf) && hist.posInf == old(hist.posInf) && given == old(given)
    {
      KeptIsSeen();
      NoteRange(v);
      if inPrecollection {
        CollectEarly(v, w);
        return Fine;
      }
      outcome := CollectIntoBins(v, w);
    }

    /** During precollection, the range having been noted. */
    method CollectEarly(v: real, w: real)
      requires inPrecollection && Configured() && hist.Now() == Bins([], [], 0.0, 0.0) && SameContent(values, seen)
      requires finiteMin.Some? && Within(seen, finiteMin.value, finiteMax.value) && finiteMin.value <= v <= finiteMax.value
      modifies this`values, this`lastRange, this`rangeUnchangedCounter, this`seen, this`binSize, this`inPrecollection
      modifies hist`binEdges, hist`binValues, hist`finiteUnderflow, hist`finiteOverflow
      ensures Valid() && seen == old(seen) + [Observation(v, w)] && Kept() == WeightOf(old(seen)) + w
      ensures rangeUnchangedCounter >= rangeUnchangedThreshold ==> !inPrecollection
      ensures |old(values)| > numToPrecollect ==> !inPrecollection
      ensures rangeUnchangedCounter < rangeUnchangedThreshold && |old(values)| < numToPrecollect ==> inPrecollection
    {
      var over := Precollect(v, w);
      WeightOfMore(seen, Observation(v, w));
      seen := seen + [Observation(v, w)];
      if over {
        SetUpBins();
      }
      KeptIsSeen();
    }

    method CollectIntoBins(v: real, w: real) returns (outcome: Outcome)
      requires Binning()
      modifies this`seen, this`binSize, hist`binEdges, hist`binValues, hist`finiteUnderflow, hist`finiteOverflow
      ensures var b := old(hist.Now());
              var refused := Refused(b, v, Under(), Over());
              && (outcome == CountUnavailable <==>
                    weighted && !Covers(b, v) && !refused && AsksForCount(b, Target(), Under(), v))
              && (outcome == AssertionFailed <==> refused && w != 0.0)
              && (outcome == Fine ==> |hist.binValues| <= |b.values| || |hist.binValues| <= BinLimit(Target()))
              && (outcome == Fine ==> seen == if refused then old(seen) else old(seen) + [Observation(v, w)])
      ensures outcome == Fine ==> Binning()
      ensures Total(hist.Now()) == Total(old(hist.Now())) + if outcome == CountUnavailable then 0.0 else w
    {
      HoldsMeansNoOutliers(hist.Now(), seen);
      var thrown := ExtendAndHold(v);
      if thrown {
        return CountUnavailable;
      }
      HoldsMeansNoOutliers(hist.Now(), seen);
      CollectHits(hist.Now(), v, w);
      AfterCollecting(hist.Now(), binSize, seen, v, w);
      if First(hist.Now()) <= v < Last(hist.Now()) {
        seen := seen + [Observation(v, w)];
      }
      hist.CollectIntoHistogram(v, w);
      if hist.finiteUnderflow != 0.0 || hist.finiteOverflow != 0.0 {
        return AssertionFailed;
      }
      outcome := Fine;
    }

    /** extendBinsTo() once more, in terms of what it achieves. */
    method ExtendAndHold(v: real) returns (thrown: bool)
      requires Binning()
      modifies hist`binEdges, hist`binValues, this`binSize
      ensures var b := old(hist.Now());
              && (thrown <==> weighted && !Covers(b, v) && !Refused(b, v, Under(), Over()) && AsksForCount(b, Target(), Under(), v))
              && (!thrown ==> hist.binEdges != [] && (Covers(hist.Now(), v) <==> !Refused(b, v, Under(), Over())))
              && (!thrown ==> |hist.binValues| <= |b.values| || |hist.binValues| <= BinLimit(Target()))
      ensures !thrown ==> Binning()
      ensures thrown ==> hist.Now() == old(hist.Now())
    {
      HoldsMeansNoOutliers(hist.Now(), seen);
      ExtendToAchieves(hist.Now(), binSize, Target(), Under(), Over(), v);
      ExtendToHolds(hist.Now(), binSize, Target(), Under(), Over(), v, seen);
      thrown := ExtendBinsTo(v);
    }

    /** cHistogram::collectWeighted(): infinite values are only counted. Whatever the strategy does
        on the way, all weight given is held by kept values, bins, outliers and the two counts; the
        one exception is the error of asking for an overflow count, which loses the value. */
    method Observe(v: Value, w: real) returns (outcome: Outcome)
      requires Valid() && Conserved() && w >= 0.0
      modifies this, hist
      ensures v.Finite? && old(inPrecollection) ==> outcome == Fine && seen == old(seen) + [Observation(v.v, w)]
      ensures v.Finite? && !old(inPrecollection) ==>
                var b := old(hist.Now());
                var below, above := v.v < First(b), v.v >= Last(b);
                var refused := (below && old(hist.negInf) > 0.0) || (above && old(hist.posInf) > 0.0);
                && (outcome == AssertionFailed <==> refused && w != 0.0)
                && (outcome == CountUnavailable <==>
                      weighted && !refused && above && old(hist.negInf) > 0.0
                      && (v.v - First(b)) / Target() as real >= Last(b) - First(b))
                && (outcome == Fine ==> seen == if refused then old(seen) else old(seen) + [Observation(v.v, w)])
      ensures !v.Finite? ==> outcome == Fine && hist.Now() == old(hist.Now()) && seen == old(seen)
      ensures outcome == Fine ==> Valid()
      ensures Conserved() && given == old(given) + if outcome == CountUnavailable then 0.0 else w
      ensures hist.negInf == old(hist.negInf) + (if v == NegInf then w else 0.0)
      ensures hist.posInf == old(hist.posInf) + (if v == PosInf then w else 0.0)
    {
      if !inPrecollection {
        FirstBeforeLast(hist.Now());
      }
      match v {
        case NegInf =>
          hist.negInf := hist.negInf + w;
          outcome := Fine;
        case PosInf =>
          hist.posInf := hist.posInf + w;
          outcome := Fine;
        case Finite(x) =>
          outcome := CollectWeighted(x, w);
      }
      if outcome != CountUnavailable {
        given := given + w;
      }
    }
  }

  lemma UnitBin()
    ensures UniformCount(0.0, 1.0, 1.0) == 1 && Even(Blank(UniformEdges(0.0, 1.0, 2)), 1.0)
  {
    assert Times(1.0, 1) == Times(1.0, 0) + 1.0;
    UniformCountOfUnits(0.0, 1.0, 1.0, 1);
    UniformIsEven(1.0, 0, 1);
  }

  /** Finite outliers arise exactly from values with some weight that the bins do not cover. */
  lemma AfterCollecting(b: Bins, s: real, seen: seq<Observation>, v: real, w: real)
    requires Even(b, s) && Holds(b, seen)
    ensures var c := Collect(b, v, w);
            && Even(c, s) && |c.values| == |b.values|
            && (c.under != 0.0 || c.over != 0.0 <==> !Covers(b, v) && w != 0.0)
            && (Covers(b, v) ==> Holds(c, seen + [Observation(v, w)]))
            && (c.under == 0.0 && c.over == 0.0 && !Covers(b, v) ==> Holds(c, seen))
  {
    HoldsMeansNoOutliers(b, seen);
    CollectHits(b, v, w);
    FirstBeforeLast(b);
    EvenCollected(b, s, v, w);
    if Covers(b, v) {
      HoldsOneMore(b, seen, v, w);
    } else if w == 0.0 {
      NothingCollected(b, v, w);
    }
  }

  lemma EvenCollected(b: Bins, s: real, v: real, w: real)
    requires Even(b, s)
    ensures Even(Collect(b, v, w), s)
  {
    CollectHits(b, v, w);
  }

  lemma NothingCollected(b: Bins, v: real, w: real)
    requires Sane(b) && b.edges != [] && !Covers(b, v)
    requires Collect(b, v, w).under == b.under && Collect(b, v, w).over == b.over
    ensures Collect(b, v, w) == b
  {
    UpperBoundSplits(b.edges, v, UpperBound(b.edges, v));
  }

  lemma ReducedIs(b: Bins, s: real, limit: nat, g: nat, r: Bins, s': real)
    requires limit > 0 && b.edges != [] && b.values != [] && |b.edges| == |b.values| + 1
    requires g > 0 && g == GroupCount(|b.values|, limit) && s' == Times(s, g)
    requires r == Merge(Appended(b, EdgesAbove(Last(b), s, Padding(|b.values|, g))), g)
    ensures (r, s') == Reduced(b, s, limit)
  {
  }

  lemma AllInOneIs(b: Bins, approx: real, under: bool, over: bool, lo: real, hi: real, r: Bins)
    requires b.edges != [] && |b.edges| == |b.values| + 1 && b.values != []
    requires Span(b) > 0.0 && approx > 0.0 && !(under && over) && (lo, hi) == OneBinRange(b, approx, under, over)
    requires Merge(b, |b.values|).edges != []
    requires var wide := MaybeAppended(MaybePrepended(Merge(b, |b.values|), lo), hi);
             |wide.values| > 0 && |wide.edges| == |wide.values| + 1 && r == Merge(wide, |wide.values|)
    ensures (r, hi - lo) == AllInOne(b, approx, under, over)
  {
  }

  lemma NoPadding(b: Bins, s: real)
    requires b.edges != []
    ensures Appended(b, EdgesAbove(Last(b), s, 0)) == b
  {
  }

  lemma NextEdgeAbove(right: real, s: real, i: nat)
    requires s > 0.0
    ensures EdgesAbove(right, s, i + 1) == EdgesAbove(right, s, i) + [right + Times(s, i + 1)]
    ensures right < right + Times(s, i + 1) && (i > 0 ==> EdgesAbove(right, s, i)[i - 1] < right + Times(s, i + 1))
  {
    TimesIsMonotonic(s, 0, i + 1);
    if i > 0 {
      TimesIsMonotonic(s, i, i + 1);
    }
  }
}
