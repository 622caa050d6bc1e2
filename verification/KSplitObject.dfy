/**
 The k-split object: inserting observations with cell splits, extending the range with new root
 grids, and walking over the cells from left to right.
 */
module KSplitObjects {
  import opened Options
  import opened KSplits
  import opened KSplitValues
  import opened KSplitCells

  /** How an extension of the range ends: with the observation counted, with a cell that held the
      link to the old root incremented, or with an access before the first cell. */
  datatype Extension = Counted | LinkOverwritten | OutOfBounds

  function Abs(x: real): real
  {
    if x < 0.0 then -x else x
  }

  function Larger(x: real, y: real): real
  {
    if x < y then y else x
  }

  function CellIndex(value: real, gridmin: real, cellsize: real): int
    requires cellsize > 0.0
  {
    ((value - gridmin) / cellsize).Floor
  }

  function Left(gridmin: real, cellsize: real, i: int): real
  {
    if i == 0 then gridmin else if i == 1 then gridmin + cellsize else gridmin + cellsize + cellsize
  }

  lemma Scaled(a: real, b: real, c: real)
    requires c > 0.0
    ensures a < b <==> a * c < b * c
  {
    var d := b - a;
    assert b * c - a * c == d * c;
    assert d > 0.0 ==> d * c > 0.0;
    assert d < 0.0 ==> -d * c > 0.0;
  }

  lemma QuotientBounds(x: real, c: real)
    requires c > 0.0
    ensures x >= 0.0 ==> x / c >= 0.0
    ensures x < c <==> x / c < 1.0
    ensures x < c + c <==> x / c < 2.0
  {
    var q := x / c;
    assert q * c == x;
    Scaled(q, 0.0, c);
    Scaled(q, 1.0, c);
    Scaled(q, 2.0, c);
  }

  /** A value inside a grid falls into the cell that contains it. */
  lemma CellContains(value: real, gridmin: real, cellsize: real)
    requires cellsize > 0.0 && gridmin <= value < Left(gridmin, cellsize, K)
    ensures var i := CellIndex(value, gridmin, cellsize);
            0 <= i < K && Left(gridmin, cellsize, i) <= value < Left(gridmin, cellsize, i + 1)
  {
    QuotientBounds(value - gridmin, cellsize);
  }

  class KSplit {
    var tree: Tree
    var numCells: nat
    var rangeMin: real
    var rangeMax: real
    ghost var maxDepth: int
    ghost var inserted: nat    // observations taken in so far
    ghost var unit: bool       // all of them had weight one
    ghost var sound: bool      // the range was never extended before the first of them

    ghost predicate Linked()
      reads this
    {
      Structure(tree, maxDepth) && rangeMin < rangeMax
    }

    ghost predicate Shape()
      reads this
    {
      Linked() && Grown(tree) && numCells == |tree.grids|
    }

    /** The root has counted every observation; totals are exact and all contents whole numbers while
        weights are one; subgrids are populated unless the range was extended too early. */
    ghost predicate Valid()
      reads this
    {
      && Shape() && RootTotal() == inserted as real
      && (unit ==> TotalsOk(tree) && Whole(tree))
      && (sound ==> SubgridsPopulated(tree))
    }

    /** createRootGrid(). */
    constructor (rangeMin: real, rangeMax: real)
      requires rangeMin < rangeMax
      ensures Valid() && inserted == 0 && unit && sound
      ensures this.rangeMin == rangeMin && this.rangeMax == rangeMax
    {
      var unused := Grid(0, 0, 0.0, 0.0, []);
      var first := Grid(0, 0, 0.0, 0.0, [Value(0.0), Value(0.0)]);
      this.rangeMin, this.rangeMax, numCells, maxDepth := rangeMin, rangeMax, K, 0;
      tree := Tree([unused, first], 1);
      inserted, unit, sound := 0, true, true;
      new;
      assert forall g: nat :: IsGrid(tree, g) ==> g == 1;
    }

    function RootTotal(): real
      requires IsGrid(tree, tree.root)
      reads this
    {
      tree.grids[tree.root].total
    }

    /** One more observation in grid g. */
    method CountIn(g: nat, ghost exact: bool)
      requires Shape() && IsGrid(tree, g)
      requires exact ==> GapsAre(tree, tree.grids[g].parent, 1.0)
      modifies this`tree
      ensures Shape() && tree == WithTotal(old(tree), g, old(tree).grids[g].total + 1.0)
      ensures exact ==> GapsAre(tree, g, 1.0)
      ensures Keeps(old(tree), tree) && HasOwn(tree, g)
      ensures Where(g) == old(Where(g))
    {
      CountingKeeps(tree, g);
      TotalKeepsStructure(tree, g, tree.grids[g].total + 1.0, maxDepth);
      CountedInPlace(tree, g, tree.grids[g].total + 1.0);
      ExtentKept(tree, WithTotal(tree, g, tree.grids[g].total + 1.0), rangeMin, (rangeMax - rangeMin) / 2.0, g, maxDepth, maxDepth);
      if exact {
        BumpMovesGap(tree, g, maxDepth);
      }
      tree := WithTotal(tree, g, tree.grids[g].total + 1.0);
    }

    /** Left edge and cell width of a grid. */
    ghost function Where(g: nat): (real, real)
      requires Linked() && IsGrid(tree, g)
      reads this
    {
      Extent(tree, rangeMin, (rangeMax - rangeMin) / 2.0, g, maxDepth)
    }

    /** What holds of the search in front of each grid. */
    ghost predicate Searching(before: Tree, value: real, g: nat, gridmin: real, cellsize: real)
      reads this
    {
      && Shape() && IsGrid(tree, g) && OnlyTotals(before, tree) && Keeps(before, tree)
      && (gridmin, cellsize) == Where(g) && cellsize > 0.0 && gridmin <= value < Left(gridmin, cellsize, K)
    }

    /** Counts the observation in one grid and finds its cell there. */
    method FindCellIn(value: real, g: nat, gridmin: real, cellsize: real, ghost before: Tree) returns (i: nat)
      requires Searching(before, value, g, gridmin, cellsize)
      requires TotalsOk(before) ==> GapsAre(tree, tree.grids[g].parent, 1.0)
      modifies this`tree
      ensures Searching(before, value, g, gridmin, cellsize)
      ensures TotalsOk(before) ==> GapsAre(tree, g, 1.0)
      ensures i < K && Left(gridmin, cellsize, i) <= value < Left(gridmin, cellsize, i + 1)
      ensures RootTotal() == old(RootTotal()) + if g == tree.root then 1.0 else 0.0
    {
      CountIn(g, TotalsOk(before));
      CellContains(value, gridmin, cellsize);
      i := CellIndex(value, gridmin, cellsize);
    }

    /** The search for the right grid; every grid on the way counts the observation. */
    method Descend(value: real) returns (location: nat, i: nat, gridmin: real, cellsize: real)
      requires Shape() && rangeMin <= value < rangeMax
      modifies this`tree
      ensures Shape() && IsGrid(tree, location) && i < K && tree.grids[location].cells[i].Value?
      ensures (gridmin, cellsize) == Where(location)
      ensures cellsize > 0.0 && Left(gridmin, cellsize, i) <= value < Left(gridmin, cellsize, i + 1)
      ensures TotalsOk(old(tree)) ==> GapsAre(tree, location, 1.0)
      ensures OnlyTotals(old(tree), tree) && RootTotal() == old(RootTotal()) + 1.0
      ensures Keeps(old(tree), tree)
    {
      gridmin := rangeMin;
      cellsize := (rangeMax - rangeMin) / 2.0;
      location := tree.root;
      while true
        invariant Searching(old(tree), value, location, gridmin, cellsize)
        invariant TotalsOk(old(tree)) ==> GapsAre(tree, tree.grids[location].parent, 1.0)
        invariant RootTotal() == old(RootTotal()) + if location == tree.root then 0.0 else 1.0
        decreases maxDepth - tree.grids[location].reldepth
      {
        i := FindCellIn(value, location, gridmin, cellsize, old(tree));
        match tree.grids[location].cells[i] {
          case Value(_) => return;
          case Link(s) =>
            assert Links(tree, location, i, s);
            ExtentOfSubgrid(tree, rangeMin, (rangeMax - rangeMin) / 2.0, location, i, s, maxDepth);
            gridmin := Left(gridmin, cellsize, i);
            cellsize := cellsize / 2.0;
            location := s;
        }
      }
    }

    /** splitCell(). */
    method SplitCell(g: nat, i: nat)
      requires Shape() && IsGrid(tree, g) && i < K && tree.grids[g].cells[i].Value?
      modifies this`tree, this`numCells, this`maxDepth
      ensures Shape() && tree == Split(old(tree), g, i) && numCells == old(numCells) + K - 1
      ensures Where(g) == old(Where(g))
    {
      SplittingKeeps(tree, g, i);
      SplitKeepsStructure(tree, g, i, maxDepth);
      SplitInPlace(tree, g, i);
      ExtentKept(tree, Split(tree, g, i), rangeMin, (rangeMax - rangeMin) / 2.0, g, maxDepth, maxDepth + 1);
      tree := Split(tree, g, i);
      numCells := numCells + K - 1;
      maxDepth := maxDepth + 1;
    }

    /** The cells of the whole tree, from left to right. */
    ghost function Cells(): seq<Leaf>
      requires Linked()
      reads this
    {
      LeavesFrom(tree, tree.root, 0, maxDepth)
    }

    /** iteratorToCell(): drives a new iterator to cell number nr, which it reaches. */
    method IteratorToCell(nr: nat) returns (it: Iterator)
      requires Shape() && nr < numCells
      ensures fresh(it) && it.ks == this && it.Valid() && it.cellnum == nr
      ensures nr < |Cells()| && Leaf(it.grid, it.cell) == Cells()[nr]
    {
      it := new Iterator(this);
      CellCount(tree, maxDepth);
      assert it.LeavesAhead(tree.root, 0) == Cells() + [];
      while nr != it.cellnum
        invariant it.ks == this && it.Valid() && it.cellnum <= nr && fresh(it)
        invariant Cells()[it.cellnum..] == [Leaf(it.grid, it.cell)] + it.LeavesAhead(it.grid, it.cell + 1)
        decreases nr - it.cellnum
      {
        ghost var before, rest := it.cellnum, it.LeavesAhead(it.grid, it.cell + 1);
        assert rest == Cells()[before..][1..] == Cells()[before + 1..];
        it.Next();
      }
      assert Cells()[nr..][0] == Cells()[nr];
    }

    /** getBinValue(): the value of the cell with that number, 0 beyond the last. */
    method GetBinValue(nr: nat, div: DivFunc) returns (v: Option<real>)
      requires Shape()
      ensures numCells == |Cells()|
      ensures v == if nr < |Cells()| then ValueAt(tree, Cells()[nr], div, maxDepth) else Some(0.0)
      ensures nr < |Cells()| && TotalsOk(tree) && Whole(tree) && v.Some? ==>
                ShowsShare(tree, Cells()[nr], v.value, div, maxDepth)
    {
      CellCount(tree, maxDepth);
      if nr < |Cells()| && TotalsOk(tree) && Whole(tree) && ValueAt(tree, Cells()[nr], div, maxDepth).Some? {
        ValueShowsShare(tree, Cells()[nr], div, maxDepth);
      }
      if nr >= numCells {
        return Some(0.0);
      }
      var it := IteratorToCell(nr);
      v := it.GetCellValue(div);
    }

    /** The left and the right edge of a cell. */
    ghost function Edges(l: Leaf): (real, real)
      requires Linked()
      reads this
    {
      CellBounds(tree, rangeMin, (rangeMax - rangeMin) / 2.0, l, maxDepth)
    }

    /** The edges increase from one end of the range to the other, each cell beginning where the one
        before it ends. */
    lemma EdgesInOrder(nr: nat)
      requires Linked() && nr < |Cells()|
      ensures rangeMin <= Edges(Cells()[nr]).0 < Edges(Cells()[nr]).1 <= rangeMax
      ensures Edges(Cells()[nr]).0 == if nr == 0 then rangeMin else Edges(Cells()[nr - 1]).1
      ensures nr == |Cells()| - 1 ==> Edges(Cells()[nr]).1 == rangeMax
    {
      CellsTileRange(tree, rangeMin, rangeMax, maxDepth);
      TileIncreases(Cells(), BoundsFunc(tree, rangeMin, (rangeMax - rangeMin) / 2.0, maxDepth), rangeMin, rangeMax, nr);
    }

    /** getBinEdge(): the left edge of the cell with that number, the end of the range beyond the last. */
    method GetBinEdge(nr: nat) returns (edge: real)
      requires Shape()
      ensures edge == if nr < |Cells()| then Edges(Cells()[nr]).0 else rangeMax
    {
      CellCount(tree, maxDepth);
      if nr >= numCells {
        return rangeMax;
      }
      var it := IteratorToCell(nr);
      edge := it.CellMin();
    }

    /** The values of all bins add up to the number of observations taken in, with weights of one
        and provided that no grid is left that has counted nothing since it was created. */
    lemma BinsAddUp(div: DivFunc)
      requires Valid() && unit
      ensures ValueSum(tree, Cells(), div, maxDepth) == if Populated(tree) then Some(inserted as real) else None
      ensures sound && inserted > 0 ==> Populated(tree)
    {
      CellValuesAddUp(tree, div, maxDepth);
      if inserted > 0 {
        RootIsPopulated(tree);
      }
    }

    /** insertIntoGrids(), for any split criterion. The weight goes to the cell whose edges contain the
        value. Totals stay exact precisely for observations of weight one: the grids on the way count
        one, the cell adds the weight. A cell is split exactly if splits are enabled, the criterion
        says so (for the tree with the observation counted on the way) and the cell is not too narrow
        compared with the left edge of its grid and the end of the range. */
    method InsertIntoGrids(value: real, weight: real, enableSplits: bool, crit: (Tree, nat, nat) -> bool)
      returns (ghost counted: Tree, ghost before: Leaf, ghost at: Leaf)
      requires Valid() && rangeMin <= value < rangeMax
      modifies this`tree, this`numCells, this`maxDepth, this`inserted, this`unit
      ensures Valid() && inserted == old(inserted) + 1 && unit == (old(unit) && weight == 1.0)
      ensures old(unit) ==> (TotalsOk(tree) <==> weight == 1.0)
      ensures old(SubgridsPopulated(tree)) ==> Populated(tree)
      ensures Received(old(tree), tree, before, at, weight) && Edges(at).0 <= value < Edges(at).1
      ensures OnlyTotals(old(tree), counted)
      ensures at != before <==> IsSplit(counted, before, enableSplits, crit, old(Where(before.grid)))
    {
      counted, before, at := PutIntoGrids(value, weight, enableSplits, crit);
      inserted := inserted + 1;
      unit := unit && weight == 1.0;
      RootIsPopulated(tree);
    }

    /** All but adding the weight: on to the cell that receives it, which is before or, split off from
        that, a new one. */
    method ChooseCell(value: real, enableSplits: bool, crit: (Tree, nat, nat) -> bool)
      returns (ghost counted: Tree, ghost before: Leaf, location: nat, i: nat)
      requires Shape() && rangeMin <= value < rangeMax
      modifies this`tree, this`numCells, this`maxDepth
      ensures Shape() && RootTotal() == old(RootTotal()) + 1.0 && Keeps(old(tree), tree)
      ensures IsGrid(tree, location) && i < K && tree.grids[location].cells[i].Value?
      ensures TotalsOk(old(tree)) ==> GapsAre(tree, location, 1.0)
      ensures var (min, size) := Where(location); Left(min, size, i) <= value < Left(min, size, i + 1)
      ensures OnlyTotals(old(tree), counted) && Chosen(counted, tree, before, location, i)
      ensures location != before.grid <==> IsSplit(counted, before, enableSplits, crit, old(Where(before.grid)))
    {
      var gridmin, cellsize;
      location, i, gridmin, cellsize := Descend(value);
      counted, before := tree, Leaf(location, i);
      TotalsInPlace(old(tree), counted);
      ExtentKept(old(tree), counted, rangeMin, (rangeMax - rangeMin) / 2.0, location, maxDepth, maxDepth);
      if enableSplits && crit(tree, location, i) && cellsize > Larger(Abs(gridmin), Abs(rangeMax)) * 0.000000000001 {
        location, i := SplitAndEnter(location, i, gridmin, cellsize, value, TotalsOk(old(tree)));
      }
    }

    ghost predicate IsSplit(counted: Tree, before: Leaf, enableSplits: bool, crit: (Tree, nat, nat) -> bool, place: (real, real))
      reads this`rangeMax
    {
      && enableSplits && crit(counted, before.grid, before.cell)
      && place.1 > Larger(Abs(place.0), Abs(rangeMax)) * 0.000000000001
    }

    method PutIntoGrids(value: real, weight: real, enableSplits: bool, crit: (Tree, nat, nat) -> bool)
      returns (ghost counted: Tree, ghost before: Leaf, ghost at: Leaf)
      requires Shape() && rangeMin <= value < rangeMax
      modifies this`tree, this`numCells, this`maxDepth
      ensures Shape() && RootTotal() == old(RootTotal()) + 1.0
      ensures TotalsOk(old(tree)) ==> (TotalsOk(tree) <==> weight == 1.0)
      ensures SubgridsPopulated(old(tree)) ==> SubgridsPopulated(tree)
      ensures Whole(old(tree)) && weight == 1.0 ==> Whole(tree)
      ensures Received(old(tree), tree, before, at, weight) && Edges(at).0 <= value < Edges(at).1
      ensures OnlyTotals(old(tree), counted)
      ensures at != before <==> IsSplit(counted, before, enableSplits, crit, old(Where(before.grid)))
    {
      var location, i;
      counted, before, location, i := ChooseCell(value, enableSplits, crit);
      at := Leaf(location, i);
      ChosenReceives(old(tree), counted, tree, before, location, i, weight);
      AddToCell(location, i, weight, TotalsOk(old(tree)));
    }

    /** Goes down to the new subgrid. */
    method SplitAndEnter(g: nat, i: nat, gridmin: real, cellsize: real, value: real, ghost exact: bool)
      returns (location: nat, j: nat)
      requires Shape() && IsGrid(tree, g) && i < K && tree.grids[g].cells[i].Value?
      requires exact ==> GapsAre(tree, g, 1.0)
      requires (gridmin, cellsize) == Where(g)
      requires cellsize > 0.0 && Left(gridmin, cellsize, i) <= value < Left(gridmin, cellsize, i + 1)
      modifies this`tree, this`numCells, this`maxDepth
      ensures Shape() && IsGrid(tree, location) && j < K && tree.grids[location].cells[j] == Value(0.0)
      ensures location == |old(tree).grids| && OnlyTotals(Split(old(tree), g, i), tree) && RootTotal() == old(RootTotal())
      ensures exact ==> GapsAre(tree, location, 1.0)
      ensures Keeps(old(tree), tree)
      ensures var (min, size) := Where(location); Left(min, size, j) <= value < Left(min, size, j + 1)
    {
      SplitAndCountKeeps(tree, g, i);
      if exact {
        SplitKeepsGaps(tree, g, i, g, 1.0, maxDepth);
      }
      SplitCell(g, i);
      location := |tree.grids| - 1;
      ExtentOfSubgrid(tree, rangeMin, (rangeMax - rangeMin) / 2.0, g, i, location, maxDepth);
      CountIn(location, exact);
      CellContains(value, Left(gridmin, cellsize, i), cellsize / 2.0);
      j := CellIndex(value, Left(gridmin, cellsize, i), cellsize / 2.0);
    }

    method AddToCell(g: nat, i: nat, weight: real, ghost exact: bool)
      requires Shape() && IsGrid(tree, g) && i < K && tree.grids[g].cells[i].Value?
      requires exact ==> GapsAre(tree, g, 1.0)
      modifies this`tree
      ensures Shape() && tree == WithCell(old(tree), g, i, Value(old(tree).grids[g].cells[i].v + weight))
      ensures RootTotal() == old(RootTotal())
      ensures exact ==> (TotalsOk(tree) <==> weight == 1.0)
      ensures SubgridsPopulated(old(tree)) ==> SubgridsPopulated(tree)
      ensures Whole(old(tree)) && weight == 1.0 ==> Whole(tree)
      ensures Where(g) == old(Where(g))
    {
      CellGains(tree, g, i, weight, maxDepth, exact);
      ChangedInPlace(tree, g, i, tree.grids[g].cells[i].v + weight);
      ExtentKept(tree, WithCell(tree, g, i, Value(tree.grids[g].cells[i].v + weight)), rangeMin, (rangeMax - rangeMin) / 2.0,
                 g, maxDepth, maxDepth);
      tree := WithCell(tree, g, i, Value(tree.grids[g].cells[i].v + weight));
    }

    /** newRootGrids() for a value outside of the range. An extension upward counts the value (with
        weight one, whatever its weight is). An extension downward either turns the link to the old
        root into a wrong one, so that what was counted before is out of reach, or gets to an access
        before the first cell, up to which nothing but the range has changed. */
    method NewRootGrids(value: real) returns (r: Extension, ghost n: nat)
      requires Valid() && !(rangeMin <= value < rangeMax)
      modifies this
      ensures rangeMin <= old(rangeMin) && old(rangeMax) <= rangeMax && rangeMin <= value < rangeMax
      ensures r == if value >= old(rangeMax) then Counted
                   else if value > (rangeMax - rangeMin) / 2.0 then LinkOverwritten else OutOfBounds
      ensures r == Counted ==> Valid() && inserted == old(inserted) + 1 && unit == old(unit)
      ensures r == Counted ==>
                && n > 0 && tree == CountedAtTop(NewRoots(old(tree), 0, n))
                && rangeMin == old(rangeMin) && rangeMax - rangeMin == Doubled(old(rangeMax - rangeMin), n)
                && rangeMin + (rangeMax - rangeMin) / 2.0 <= value < rangeMax
      ensures r == Counted ==> (SubgridsPopulated(tree) <==> SubgridsPopulated(old(tree)) && old(inserted) > 0)
      ensures r == LinkOverwritten ==> forall depth: int :: !Structure(tree, depth)
      ensures r == OutOfBounds ==> Valid() && inserted == old(inserted) && unit == old(unit)
    {
      n := GrowRange(value);
      sound := sound && inserted > 0;
      WhichHalf(value, rangeMin, rangeMax);
      var i := CellIndex(value, rangeMin, (rangeMax - rangeMin) / 2.0);
      if i == (K - 1) / 2 {
        if value > (rangeMax - rangeMin) / 2.0 {
          OverwriteLink();
          return LinkOverwritten, n;
        }
        return OutOfBounds, n;
      }
      CountInRoot();
      inserted := inserted + 1;
      r := Counted;
    }

    /** The increment goes to the cell that holds the link to the old root. */
    method OverwriteLink()
      requires Shape() && tree.grids[tree.root].cells[0].Value? && tree.grids[tree.root].cells[1].Link?
      modifies this`tree
      ensures forall depth: int :: !Structure(tree, depth)
    {
      var s, before := tree.grids[tree.root].cells[1].grid, tree;
      assert Links(tree, tree.root, 1, s);
      tree := WithCell(tree, tree.root, 1, if s == 1 then Value(0.0) else Link(s - 1));
      tree := WithTotal(tree, tree.root, tree.grids[tree.root].total + 1.0);
      assert IsGrid(tree, s) && s != tree.root && tree.grids[s].parent == tree.root;
      assert !HasParent(tree, s);
    }

    /** One turn of the loop. */
    method ExtendOnce(down: bool)
      requires Shape()
      modifies this`tree, this`numCells, this`rangeMin, this`rangeMax
      ensures Shape() && tree == NewRoot(old(tree), if down then 1 else 0)
      ensures rangeMin == old(rangeMin) - (if down then old(rangeMax - rangeMin) else 0.0)
      ensures rangeMax == old(rangeMax) + (if down then 0.0 else old(rangeMax - rangeMin))
      ensures (TotalsOk(old(tree)) ==> TotalsOk(tree)) && (Whole(old(tree)) ==> Whole(tree))
      ensures SubgridsPopulated(tree) <==> SubgridsPopulated(old(tree)) && RootTotal() != 0.0
    {
      var cell := if down then 1 else 0;
      NewRootKeeps(tree, cell);
      NewRootKeepsStructure(tree, cell, maxDepth);
      if TotalsOk(tree) {
        NewRootKeepsTotals(tree, cell, maxDepth);
      }
      tree := NewRoot(tree, cell);
      numCells := numCells + K - 1;
      var gridsize := rangeMax - rangeMin;
      if down {
        rangeMin := rangeMin - gridsize;
      } else {
        rangeMax := rangeMax + gridsize;
      }
    }

    /** The loop that puts new grids around the root until the value is in range. */
    method GrowRange(value: real) returns (ghost n: nat)
      requires Shape() && !(rangeMin <= value < rangeMax)
      modifies this`tree, this`numCells, this`rangeMin, this`rangeMax
      ensures Shape() && rangeMin <= old(rangeMin) && old(rangeMax) <= rangeMax && rangeMin <= value < rangeMax
      ensures RootTotal() == old(RootTotal())
      ensures (TotalsOk(old(tree)) ==> TotalsOk(tree)) && (Whole(old(tree)) ==> Whole(tree))
      ensures SubgridsPopulated(tree) <==> SubgridsPopulated(old(tree)) && RootTotal() != 0.0
      ensures n > 0 && tree == NewRoots(old(tree), if value >= old(rangeMax) then 0 else 1, n)
      ensures rangeMax - rangeMin == Doubled(old(rangeMax - rangeMin), n)
      ensures if value >= old(rangeMax) then rangeMin == old(rangeMin) else rangeMax == old(rangeMax)
      ensures var mid := rangeMin + (rangeMax - rangeMin) / 2.0; var cells := tree.grids[tree.root].cells;
              if value >= old(rangeMax) then value >= mid && cells[0].Link? && cells[1] == Value(0.0)
              else value < mid && cells[1].Link? && cells[0] == Value(0.0)
    {
      n := 0;
      ghost var unit, up, first := rangeMax - rangeMin, value >= rangeMax, true;
      while true
        invariant Shape() && rangeMin <= old(rangeMin) && old(rangeMax) <= rangeMax && !(rangeMin <= value < rangeMax)
        invariant RootTotal() == old(RootTotal())
        invariant (TotalsOk(old(tree)) ==> TotalsOk(tree)) && (Whole(old(tree)) ==> Whole(tree))
        invariant SubgridsPopulated(tree) <==> SubgridsPopulated(old(tree)) && (first || RootTotal() != 0.0)
        invariant first == (n == 0) && tree == NewRoots(old(tree), if up then 0 else 1, n)
        invariant rangeMax - rangeMin == Doubled(old(rangeMax - rangeMin), n)
        invariant if up then rangeMin == old(rangeMin) else rangeMax == old(rangeMax)
        invariant rangeMax - rangeMin >= unit > 0.0 && up == (value >= rangeMax)
        decreases if up then (value - rangeMax) / unit else (rangeMin - value) / unit
      {
        StepsShrink(if up then value - rangeMax else rangeMin - value, rangeMax - rangeMin, unit);
        ExtendOnce(value < rangeMin);
        n := n + 1;
        first := false;
        if rangeMin <= value < rangeMax {
          return;
        }
      }
    }

    /** Counts an observation in the second cell of the root. */
    method CountInRoot()
      requires Shape() && tree.grids[tree.root].cells[1].Value?
      modifies this`tree
      ensures Shape() && RootTotal() == old(RootTotal()) + 1.0
      ensures (TotalsOk(old(tree)) ==> TotalsOk(tree)) && (Whole(old(tree)) ==> Whole(tree))
      ensures SubgridsPopulated(tree) <==> SubgridsPopulated(old(tree))
      ensures tree == CountedAtTop(old(tree))
    {
      RootCounts(tree, maxDepth);
      var g := tree.root;
      tree := WithTotal(tree, g, tree.grids[g].total + 1.0);
      tree := WithCell(tree, g, 1, Value(tree.grids[g].cells[1].v + 1.0));
      assert tree == CountedAtTop(old(tree));
    }
  }

  /** The observation went, with its weight, to cell at, and the tree is otherwise as it was but for
      totals; or cell before was split first, and at is a cell of its new subgrid. */
  ghost predicate Received(t: Tree, u: Tree, before: Leaf, at: Leaf, weight: real)
  {
    && IsGrid(t, before.grid) && before.cell < |t.grids[before.grid].cells| && t.grids[before.grid].cells[before.cell].Value?
    && if at == before then OnlyTotals(WithCell(t, at.grid, at.cell, Value(t.grids[at.grid].cells[at.cell].v + weight)), u)
       else
         var s := Split(t, before.grid, before.cell);
         at.grid == |t.grids| && at.cell < K && OnlyTotals(WithCell(s, at.grid, at.cell, Value(weight)), u)
  }

  /** Cell i of grid location is the cell found, or one of a subgrid just split off from that. */
  ghost predicate Chosen(mid: Tree, t: Tree, before: Leaf, location: nat, i: nat)
  {
    && IsGrid(mid, before.grid) && before.cell < |mid.grids[before.grid].cells| && mid.grids[before.grid].cells[before.cell].Value?
    && if location == before.grid then i == before.cell && t == mid
       else
         && location == |mid.grids| && i < K && |t.grids| == location + 1
         && t.grids[location].cells == [Value(0.0), Value(0.0)] && OnlyTotals(Split(mid, before.grid, before.cell), t)
  }

  lemma ChosenReceives(t: Tree, mid: Tree, u: Tree, before: Leaf, location: nat, i: nat, weight: real)
    requires OnlyTotals(t, mid) && Chosen(mid, u, before, location, i)
    requires IsGrid(u, location) && i < |u.grids[location].cells| && u.grids[location].cells[i].Value?
    ensures Received(t, WithCell(u, location, i, Value(u.grids[location].cells[i].v + weight)), before, Leaf(location, i), weight)
  {
    if location != before.grid {
      SameWithTotals(Split(t, before.grid, before.cell), Split(mid, before.grid, before.cell), u, location, i, weight);
    }
  }

  lemma SameWithTotals(s: Tree, s': Tree, u: Tree, g: nat, i: nat, weight: real)
    requires OnlyTotals(s, s') && OnlyTotals(s', u)
    requires IsGrid(s, g) && i < |s.grids[g].cells| && s.grids[g].cells == [Value(0.0), Value(0.0)]
    ensures OnlyTotals(WithCell(s, g, i, Value(weight)), WithCell(u, g, i, Value(0.0 + weight)))
  {
  }

  /** One more observation of weight one in the second cell of the root. */
  function CountedAtTop(t: Tree): Tree
    requires IsGrid(t, t.root) && |t.grids[t.root].cells| == K && t.grids[t.root].cells[1].Value?
  {
    var top := t.grids[t.root];
    t.(grids := t.grids[t.root := top.(total := top.total + 1.0, cells := top.cells[1 := Value(top.cells[1].v + 1.0)])])
  }

  /** So after an extension upward every old grid is where it was, with the contents it had, and the
      one observation is in the upper half of the new range, as the other new cells are empty. */
  lemma ExtensionLeavesGrids(t: Tree, n: nat, min: real, size: real, depth: int)
    requires Structure(t, depth) && n > 0
    ensures var u := NewRoots(t, 0, n);
            && |u.grids[u.root].cells| == K && u.grids[u.root].cells[1] == Value(0.0)
            && Structure(CountedAtTop(u), depth)
            && StillThere(t, min, size / 2.0, depth, CountedAtTop(u), min, Doubled(size, n) / 2.0, depth)
            && CountedAtTop(u).grids[u.root].cells[1] == Value(1.0)
  {
    var u := NewRoots(t, 0, n);
    NewRootsKeepStructure(t, 0, n, depth);
    NewRootsLeaveGrids(t, 0, n, min, size, depth);
    TopKeepsStructure(u, depth);
    var v := CountedAtTop(u);
    assert SamePlaces(u, v);
    forall h: nat | IsGrid(t, h)
      ensures v.grids[h].cells == t.grids[h].cells
      ensures Extent(v, min, Doubled(size, n) / 2.0, h, depth) == Extent(t, min, size / 2.0, h, depth)
    {
      assert IsGrid(u, h) && h != u.root;
      ExtentKept(u, v, min, Doubled(size, n) / 2.0, h, depth, depth);
    }
  }

  lemma TopKeepsStructure(t: Tree, depth: int)
    requires Structure(t, depth) && t.grids[t.root].cells[1].Value?
    ensures Structure(CountedAtTop(t), depth)
  {
    var v := t.grids[t.root].cells[1].v;
    TotalKeepsStructure(t, t.root, t.grids[t.root].total + 1.0, depth);
    var u := WithTotal(t, t.root, t.grids[t.root].total + 1.0);
    ValueKeepsStructure(u, t.root, 1, v + 1.0, depth);
    assert CountedAtTop(t) == WithCell(u, t.root, 1, Value(v + 1.0));
  }

  lemma TotalsInPlace(t: Tree, u: Tree)
    requires OnlyTotals(t, u)
    ensures SamePlaces(t, u)
  {
  }

  lemma CellGains(t: Tree, g: nat, i: nat, weight: real, maxDepth: int, exact: bool)
    requires Structure(t, maxDepth) && Grown(t) && IsGrid(t, g) && i < K && t.grids[g].cells[i].Value?
    requires exact ==> GapsAre(t, g, 1.0)
    ensures var u := WithCell(t, g, i, Value(t.grids[g].cells[i].v + weight));
            && Structure(u, maxDepth) && Grown(u) && u.grids[u.root].total == t.grids[t.root].total
            && (exact ==> (TotalsOk(u) <==> weight == 1.0))
            && (SubgridsPopulated(t) ==> SubgridsPopulated(u)) && (Whole(t) && weight == 1.0 ==> Whole(u))
  {
    AddingKeeps(t, g, i, weight);
    ValueKeepsStructure(t, g, i, t.grids[g].cells[i].v + weight, maxDepth);
    if exact {
      FillsExactly(t, g, i, weight, maxDepth);
    }
  }

  lemma FillsExactly(t: Tree, g: nat, i: nat, weight: real, maxDepth: int)
    requires Structure(t, maxDepth) && IsGrid(t, g) && i < K && t.grids[g].cells[i].Value? && GapsAre(t, g, 1.0)
    ensures TotalsOk(WithCell(t, g, i, Value(t.grids[g].cells[i].v + weight))) <==> weight == 1.0
  {
    AddFillsGap(t, g, i, weight, maxDepth);
    GapDecides(WithCell(t, g, i, Value(t.grids[g].cells[i].v + weight)), g, 1.0 - weight);
  }

  /** Changes of the root leave it open whether the other grids are populated. */
  lemma RootAside(t: Tree, total: real, i: nat, c: Cell)
    requires IsGrid(t, t.root) && i < |t.grids[t.root].cells|
    ensures SubgridsPopulated(WithCell(WithTotal(t, t.root, total), t.root, i, c)) <==> SubgridsPopulated(t)
  {
    var u := WithCell(WithTotal(t, t.root, total), t.root, i, c);
    assert forall h: nat :: IsGrid(t, h) && h != t.root ==> (HasOwn(u, h) <==> HasOwn(t, h));
  }

  lemma WhichHalf(value: real, rangeMin: real, rangeMax: real)
    requires rangeMin <= value < rangeMax
    ensures CellIndex(value, rangeMin, (rangeMax - rangeMin) / 2.0)
            == if value < rangeMin + (rangeMax - rangeMin) / 2.0 then 0 else 1
  {
    QuotientBounds(value - rangeMin, (rangeMax - rangeMin) / 2.0);
  }

  lemma RootCounts(t: Tree, maxDepth: int)
    requires Structure(t, maxDepth) && Grown(t) && t.grids[t.root].cells[1].Value?
    ensures var g := t.root;
            var u := WithCell(WithTotal(t, g, t.grids[g].total + 1.0), g, 1, Value(t.grids[g].cells[1].v + 1.0));
            && Structure(u, maxDepth) && Grown(u) && (TotalsOk(t) ==> TotalsOk(u)) && (Whole(t) ==> Whole(u))
            && (SubgridsPopulated(u) <==> SubgridsPopulated(t))
  {
    var g := t.root;
    CountingKeeps(t, g);
    TotalKeepsStructure(t, g, t.grids[g].total + 1.0, maxDepth);
    var v := WithTotal(t, g, t.grids[g].total + 1.0);
    if TotalsOk(t) {
      NoGapIsNowhere(t);
      BumpMovesGap(t, g, maxDepth);
    }
    CellGains(v, g, 1, 1.0, maxDepth, TotalsOk(t));
    RootAside(t, t.grids[g].total + 1.0, 1, Value(t.grids[g].cells[1].v + 1.0));
  }

  lemma RootIsPopulated(t: Tree)
    requires IsGrid(t, t.root) && HasOwn(t, t.root)
    ensures Populated(t) <==> SubgridsPopulated(t)
  {
  }

  lemma NoGapIsNowhere(t: Tree)
    requires TotalsOk(t)
    ensures GapsAre(t, 0, 1.0)
  {
  }

  lemma StepsShrink(distance: real, step: real, unit: real)
    requires step >= unit > 0.0
    ensures (distance - step) / unit <= distance / unit - 1.0
    ensures distance >= 0.0 ==> distance / unit >= 0.0
  {
    QuotientsApart(distance / unit, (distance - step) / unit, distance, step, unit);
    QuotientBounds(distance, unit);
  }

  lemma QuotientsApart(q: real, p: real, distance: real, step: real, unit: real)
    requires step >= unit > 0.0 && q * unit == distance && p * unit == distance - step
    ensures p <= q - 1.0
  {
    OneLess(q, unit);
    Scaled(q - 1.0, p, unit);
  }

  lemma OneLess(q: real, unit: real)
    ensures (q - 1.0) * unit == q * unit - unit
  {
  }

  // ---------------------------------------------------------------- the iterator

  class Iterator {
    const ks: KSplit
    var grid: nat
    var cell: nat
    var cellnum: nat
    var gridmin: real
    var cellsize: real

    /** At a leaf cell, with its grid's true left edge and cell width. */
    ghost predicate Valid()
      reads this, ks
    {
      && ks.Linked() && IsGrid(ks.tree, grid) && cell < K && ks.tree.grids[grid].cells[cell].Value?
      && (gridmin, cellsize) == Where(grid)
    }

    ghost function Where(g: nat): (real, real)
      requires ks.Linked() && IsGrid(ks.tree, g)
      reads this, ks
    {
      Extent(ks.tree, ks.rangeMin, (ks.rangeMax - ks.rangeMin) / 2.0, g, ks.maxDepth)
    }

    function CellMin(): real
      reads this
    {
      Left(gridmin, cellsize, cell)
    }

    function CellMax(): real
      reads this
    {
      Left(gridmin, cellsize, cell + 1)
    }

    /** The leaf cells from cell c of grid g on. */
    ghost function LeavesAhead(g: nat, c: nat): seq<Leaf>
      requires ks.Linked() && IsGrid(ks.tree, g) && c <= K
      reads this, ks
    {
      Ahead(ks.tree, g, c, ks.maxDepth)
    }

    /** Starts at the leftmost cell. */
    constructor (ks: KSplit)
      requires ks.Linked()
      ensures this.ks == ks && Valid() && cellnum == 0 && CellMin() == ks.rangeMin
      ensures LeavesAhead(ks.tree.root, 0) == [Leaf(grid, cell)] + LeavesAhead(grid, cell + 1)
    {
      this.ks := ks;
      grid, cell, cellnum := ks.tree.root, 0, 0;
      cellsize, gridmin := (ks.rangeMax - ks.rangeMin) / 2.0, ks.rangeMin;
      new;
      Dive();
    }

    /** getCellValue(). */
    method GetCellValue(div: DivFunc) returns (v: Option<real>)
      requires Valid()
      ensures v == RealCellValue(ks.tree, grid, cell, div, ks.maxDepth)
    {
      v := RealCellValue(ks.tree, grid, cell, div, ks.maxDepth);
    }

    /** One level down, to the first cell of the subgrid. */
    method EnterSubgrid()
      requires ks.Linked() && IsGrid(ks.tree, grid) && cell < K && (gridmin, cellsize) == Where(grid)
      requires ks.tree.grids[grid].cells[cell].Link?
      modifies this`grid, this`cell, this`gridmin, this`cellsize
      ensures IsGrid(ks.tree, grid) && cell < K && (gridmin, cellsize) == Where(grid)
      ensures ks.tree.grids[grid].reldepth == old(ks.tree.grids[grid].reldepth) + 1
      ensures CellMin() == old(CellMin()) && LeavesAhead(grid, cell) == old(LeavesAhead(grid, cell))
    {
      var s := ks.tree.grids[grid].cells[cell].grid;
      assert Links(ks.tree, grid, cell, s);
      ExtentOfSubgrid(ks.tree, ks.rangeMin, (ks.rangeMax - ks.rangeMin) / 2.0, grid, cell, s, ks.maxDepth);
      AheadOfSubgrid(ks.tree, grid, cell, s, ks.maxDepth);
      gridmin := gridmin + (if cell == 0 then 0.0 else cellsize);
      grid := s;
      cell := 0;
      cellsize := cellsize / 2.0;
    }

    /** dive(0): goes into subgrids as deep as possible; neither the left edge of the current cell
        nor the leaves ahead change. */
    method Dive()
      requires ks.Linked() && IsGrid(ks.tree, grid) && cell < K && (gridmin, cellsize) == Where(grid)
      modifies this`grid, this`cell, this`gridmin, this`cellsize
      ensures Valid() && CellMin() == old(CellMin())
      ensures old(LeavesAhead(grid, cell)) == [Leaf(grid, cell)] + LeavesAhead(grid, cell + 1)
    {
      while ks.tree.grids[grid].cells[cell].Link?
        invariant IsGrid(ks.tree, grid) && cell < K && (gridmin, cellsize) == Where(grid)
        invariant CellMin() == old(CellMin()) && LeavesAhead(grid, cell) == old(LeavesAhead(grid, cell))
        decreases ks.maxDepth - ks.tree.grids[grid].reldepth
      {
        EnterSubgrid();
      }
      AheadOfLeaf(ks.tree, grid, cell, ks.maxDepth);
    }

    /** operator++: moves to the next leaf cell, which begins where the current one ends; after the
        last one, which ends at the end of the range, the iterator is at its end (grid 0). */
    method Next()
      requires Valid()
      modifies this
      ensures cellnum == old(cellnum) + 1
      ensures grid == 0 <==> old(LeavesAhead(grid, cell + 1)) == []
      ensures grid == 0 ==> old(CellMax()) == ks.rangeMax
      ensures grid != 0 ==> Valid() && CellMin() == old(CellMax())
      ensures grid != 0 ==> old(LeavesAhead(grid, cell + 1)) == [Leaf(grid, cell)] + LeavesAhead(grid, cell + 1)
    {
      cellnum := cellnum + 1;
      cell := cell + 1;
      Climb();
      if grid != 0 {
        Dive();
      }
    }

    /** Steps back to parents while there is no cell to the right; neither the left edge of the
        (possibly missing) current cell nor the leaves ahead change. */
    method Climb()
      requires ks.Linked() && IsGrid(ks.tree, grid) && cell <= K && (gridmin, cellsize) == Where(grid)
      modifies this`grid, this`cell, this`gridmin, this`cellsize
      ensures grid == 0 ==> old(LeavesAhead(grid, cell)) == [] && old(CellMin()) == ks.rangeMax
      ensures grid != 0 ==>
                && IsGrid(ks.tree, grid) && cell < K && (gridmin, cellsize) == Where(grid)
                && CellMin() == old(CellMin()) && LeavesAhead(grid, cell) == old(LeavesAhead(grid, cell))
    {
      while cell == K
        invariant IsGrid(ks.tree, grid) && cell <= K && (gridmin, cellsize) == Where(grid)
        invariant CellMin() == old(CellMin()) && LeavesAhead(grid, cell) == old(LeavesAhead(grid, cell))
        decreases ks.tree.grids[grid].reldepth - ks.tree.grids[ks.tree.root].reldepth, K - cell
      {
        var oldgrid := grid;
        if ks.tree.grids[oldgrid].parent == 0 {
          assert oldgrid != ks.tree.root ==> HasParent(ks.tree, oldgrid);
          grid := 0;
          return;
        }
        AheadOfParent(ks.tree, oldgrid, ks.maxDepth);
        assert HasParent(ks.tree, oldgrid) && Links(ks.tree, ks.tree.grids[oldgrid].parent, IndexIn(ks.tree, oldgrid), oldgrid);
        grid := ks.tree.grids[oldgrid].parent;
        var i := FindCell(grid, oldgrid);
        cellsize := cellsize * 2.0;
        gridmin := gridmin - (if i == 0 then 0.0 else cellsize);
        cell := i + 1;
      }
    }

    method FindCell(p: nat, g: nat) returns (i: nat)
      requires ks.Linked() && IsGrid(ks.tree, g) && HasParent(ks.tree, g) && p == ks.tree.grids[g].parent
      ensures i == IndexIn(ks.tree, g)
    {
      i := 0;
      while i < K && ks.tree.grids[p].cells[i] != Link(g)
        invariant i <= K && forall j: nat :: j < i ==> !Links(ks.tree, p, j, g)
      {
        i := i + 1;
      }
    }
  }
}
