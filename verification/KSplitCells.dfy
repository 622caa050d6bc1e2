/**
 The number of cells of a k-split grid tree: one more than there are grids.
 */
module KSplitCells {
  import opened KSplits
  import opened KSplitValues

  /** Grid h is grid g or hangs below it. */
  predicate Under(t: Tree, g: nat, h: nat, ghost maxDepth: int)
    requires Structure(t, maxDepth) && IsGrid(t, h)
    decreases t.grids[h].reldepth - t.grids[t.root].reldepth
  {
    h == g || (h != t.root && HasParent(t, h) && Under(t, g, t.grids[h].parent, maxDepth))
  }

  ghost function Below(t: Tree, g: nat, maxDepth: int): set<nat>
    requires Structure(t, maxDepth)
  {
    set h: nat | h < |t.grids| && IsGrid(t, h) && Under(t, g, h, maxDepth)
  }

  lemma ParentIsHigher(t: Tree, h: nat, maxDepth: int)
    requires Structure(t, maxDepth) && IsGrid(t, h) && h != t.root
    ensures IsGrid(t, t.grids[h].parent) && Links(t, t.grids[h].parent, IndexIn(t, h), h)
    ensures t.grids[h].reldepth == t.grids[t.grids[h].parent].reldepth + 1
  {
    assert HasParent(t, h);
  }

  lemma {:induction false} UnderIsDeeper(t: Tree, g: nat, h: nat, maxDepth: int)
    requires Structure(t, maxDepth) && IsGrid(t, g) && IsGrid(t, h) && Under(t, g, h, maxDepth)
    ensures h == g || t.grids[h].reldepth > t.grids[g].reldepth
    decreases t.grids[h].reldepth - t.grids[t.root].reldepth
  {
    if h != g {
      ParentIsHigher(t, h, maxDepth);
      UnderIsDeeper(t, g, t.grids[h].parent, maxDepth);
    }
  }

  /** No grid hangs below two different grids of the same depth. */
  lemma {:induction false} UnderOne(t: Tree, a: nat, b: nat, h: nat, maxDepth: int)
    requires Structure(t, maxDepth) && IsGrid(t, a) && IsGrid(t, b) && IsGrid(t, h)
    requires t.grids[a].reldepth == t.grids[b].reldepth
    requires Under(t, a, h, maxDepth) && Under(t, b, h, maxDepth)
    ensures a == b
    decreases t.grids[h].reldepth - t.grids[t.root].reldepth
  {
    UnderIsDeeper(t, a, h, maxDepth);
    UnderIsDeeper(t, b, h, maxDepth);
    if h != a {
      ParentIsHigher(t, h, maxDepth);
      UnderOne(t, a, b, t.grids[h].parent, maxDepth);
    }
  }

  lemma {:induction false} UnderChild(t: Tree, g: nat, c: nat, h: nat, maxDepth: int)
    requires Structure(t, maxDepth) && IsGrid(t, g) && IsGrid(t, h) && IsGrid(t, c) && c != t.root && t.grids[c].parent == g
    requires Under(t, c, h, maxDepth)
    ensures Under(t, g, h, maxDepth)
    decreases t.grids[h].reldepth - t.grids[t.root].reldepth
  {
    if h == c {
      ParentIsHigher(t, c, maxDepth);
      assert Under(t, g, g, maxDepth);
    } else {
      ParentIsHigher(t, h, maxDepth);
      UnderChild(t, g, c, t.grids[h].parent, maxDepth);
    }
  }

  /** What hangs below a grid hangs on one of its cells. */
  lemma {:induction false} UnderSome(t: Tree, g: nat, h: nat, maxDepth: int) returns (i: nat, c: nat)
    requires Structure(t, maxDepth) && IsGrid(t, g) && IsGrid(t, h) && Under(t, g, h, maxDepth) && h != g
    ensures i < K && t.grids[g].cells[i] == Link(c) && IsGrid(t, c) && Under(t, c, h, maxDepth)
    decreases t.grids[h].reldepth - t.grids[t.root].reldepth
  {
    ParentIsHigher(t, h, maxDepth);
    var p := t.grids[h].parent;
    if p == g {
      i, c := IndexIn(t, h), h;
    } else {
      i, c := UnderSome(t, g, p, maxDepth);
    }
  }

  /** The grids on and below cell i of grid g. */
  ghost function BelowCell(t: Tree, g: nat, i: nat, maxDepth: int): set<nat>
    requires Structure(t, maxDepth) && IsGrid(t, g) && i < K
  {
    match t.grids[g].cells[i]
    case Value(_) => {}
    case Link(s) => Below(t, s, maxDepth)
  }

  lemma CellsApart(t: Tree, g: nat, maxDepth: int)
    requires Structure(t, maxDepth) && IsGrid(t, g)
    ensures BelowCell(t, g, 0, maxDepth) !! BelowCell(t, g, 1, maxDepth)
  {
    forall h | h in BelowCell(t, g, 0, maxDepth) && h in BelowCell(t, g, 1, maxDepth)
      ensures false
    {
      var a, b := t.grids[g].cells[0].grid, t.grids[g].cells[1].grid;
      assert Links(t, g, 0, a) && Links(t, g, 1, b);
      UnderOne(t, a, b, h, maxDepth);
    }
  }

  lemma NotBelowItsCells(t: Tree, g: nat, i: nat, maxDepth: int)
    requires Structure(t, maxDepth) && IsGrid(t, g) && i < K
    ensures g !in BelowCell(t, g, i, maxDepth)
  {
    if t.grids[g].cells[i].Link? {
      var s := t.grids[g].cells[i].grid;
      assert Links(t, g, i, s);
      if Under(t, s, g, maxDepth) {
        UnderIsDeeper(t, s, g, maxDepth);
      }
    }
  }

  lemma BelowSplits(t: Tree, g: nat, maxDepth: int)
    requires Structure(t, maxDepth) && IsGrid(t, g)
    ensures Below(t, g, maxDepth) == {g} + BelowCell(t, g, 0, maxDepth) + BelowCell(t, g, 1, maxDepth)
  {
    var below, a, b := Below(t, g, maxDepth), BelowCell(t, g, 0, maxDepth), BelowCell(t, g, 1, maxDepth);
    forall h | h in below && h != g
      ensures h in a || h in b
    {
      BelowIsBelowCell(t, g, h, maxDepth);
    }
    BelowCellIn(t, g, 0, maxDepth);
    BelowCellIn(t, g, 1, maxDepth);
    assert g in below;
  }

  lemma BelowIsBelowCell(t: Tree, g: nat, h: nat, maxDepth: int)
    requires Structure(t, maxDepth) && IsGrid(t, g) && h in Below(t, g, maxDepth) && h != g
    ensures h in BelowCell(t, g, 0, maxDepth) || h in BelowCell(t, g, 1, maxDepth)
  {
    BelowMeansUnder(t, g, h, maxDepth);
    var i, c := UnderSome(t, g, h, maxDepth);
    BelowMeansUnder(t, c, h, maxDepth);
    assert i == 0 || i == 1;
  }

  lemma BelowMeansUnder(t: Tree, g: nat, h: nat, maxDepth: int)
    requires Structure(t, maxDepth)
    ensures h in Below(t, g, maxDepth) <==> IsGrid(t, h) && Under(t, g, h, maxDepth)
  {
  }

  lemma BelowCellIn(t: Tree, g: nat, i: nat, maxDepth: int)
    requires Structure(t, maxDepth) && IsGrid(t, g) && i < K
    ensures BelowCell(t, g, i, maxDepth) <= Below(t, g, maxDepth)
  {
    forall h | h in BelowCell(t, g, i, maxDepth)
      ensures h in Below(t, g, maxDepth)
    {
      var s := t.grids[g].cells[i].grid;
      assert Links(t, g, i, s);
      UnderChild(t, g, s, h, maxDepth);
    }
  }

  lemma {:induction false} CellsBelow(t: Tree, g: nat, maxDepth: int)
    requires Structure(t, maxDepth) && IsGrid(t, g)
    ensures |LeavesFrom(t, g, 0, maxDepth)| == |Below(t, g, maxDepth)| + 1
    decreases maxDepth - t.grids[g].reldepth, 1
  {
    CellsOfCell(t, g, 0, maxDepth);
    CellsOfCell(t, g, 1, maxDepth);
    LeavesOfGrid(t, g, maxDepth);
    BelowSplits(t, g, maxDepth);
    CellsApart(t, g, maxDepth);
    NotBelowItsCells(t, g, 0, maxDepth);
    NotBelowItsCells(t, g, 1, maxDepth);
    SizeOfThree(g, BelowCell(t, g, 0, maxDepth), BelowCell(t, g, 1, maxDepth));
  }

  lemma SizeOfThree(g: nat, a: set<nat>, b: set<nat>)
    requires a !! b && g !in a && g !in b
    ensures |{g} + a + b| == 1 + |a| + |b|
  {
  }

  lemma {:induction false} CellsOfCell(t: Tree, g: nat, i: nat, maxDepth: int)
    requires Structure(t, maxDepth) && IsGrid(t, g) && i < K
    ensures |LeavesOfCell(t, g, i, maxDepth)| == |BelowCell(t, g, i, maxDepth)| + 1
    decreases maxDepth - t.grids[g].reldepth, 0
  {
    if t.grids[g].cells[i].Link? {
      var s := t.grids[g].cells[i].grid;
      assert Links(t, g, i, s);
      CellsBelow(t, s, maxDepth);
    }
  }

  lemma {:induction false} AllUnderRoot(t: Tree, h: nat, maxDepth: int)
    requires Structure(t, maxDepth) && IsGrid(t, h)
    ensures Under(t, t.root, h, maxDepth)
    decreases t.grids[h].reldepth - t.grids[t.root].reldepth
  {
    if h != t.root {
      ParentIsHigher(t, h, maxDepth);
      AllUnderRoot(t, t.grids[h].parent, maxDepth);
    }
  }

  ghost function UpTo(n: nat): (s: set<nat>)
    ensures |s| == n && forall h: nat :: h in s <==> h < n
  {
    if n == 0 then {} else UpTo(n - 1) + {n - 1}
  }

  /** There are as many cells as there are grids in the vector, its unused element included. */
  lemma CellCount(t: Tree, maxDepth: int)
    requires Structure(t, maxDepth)
    ensures |LeavesFrom(t, t.root, 0, maxDepth)| == |t.grids|
  {
    CellsBelow(t, t.root, maxDepth);
    forall h: nat | h < |t.grids| && IsGrid(t, h)
      ensures Under(t, t.root, h, maxDepth)
    {
      AllUnderRoot(t, h, maxDepth);
    }
    assert Below(t, t.root, maxDepth) == UpTo(|t.grids|) - {0} by {
      assert forall h: nat :: h in Below(t, t.root, maxDepth) <==> IsGrid(t, h);
    }
  }

  // ---------------------------------------------------------------- the cells side by side

  type Bounds = Leaf -> (real, real)

  /** Each cell begins where the one before it ends, the first at lo, and the last ends at hi. */
  ghost predicate Tile(ls: seq<Leaf>, bounds: Bounds, lo: real, hi: real)
  {
    if ls == [] then lo == hi
    else bounds(ls[0]).0 == lo < bounds(ls[0]).1 && Tile(ls[1..], bounds, bounds(ls[0]).1, hi)
  }

  lemma {:induction false} TileBoth(a: seq<Leaf>, b: seq<Leaf>, bounds: Bounds, lo: real, mid: real, hi: real)
    requires Tile(a, bounds, lo, mid) && Tile(b, bounds, mid, hi)
    ensures Tile(a + b, bounds, lo, hi)
  {
    if a == [] {
      assert [] + b == b;
    } else {
      TileBoth(a[1..], b, bounds, bounds(a[0]).1, mid, hi);
      assert (a + b)[1..] == a[1..] + b;
    }
  }

  /** Cells that tile a range have increasing edges. */
  lemma {:induction false} TileIncreases(ls: seq<Leaf>, bounds: Bounds, lo: real, hi: real, i: nat)
    requires Tile(ls, bounds, lo, hi) && i < |ls|
    ensures lo <= bounds(ls[i]).0 < bounds(ls[i]).1 <= hi
    ensures bounds(ls[i]).0 == if i == 0 then lo else bounds(ls[i - 1]).1
    ensures bounds(ls[i]).1 == if i == |ls| - 1 then hi else bounds(ls[i + 1]).0
  {
    if i > 0 {
      TileIncreases(ls[1..], bounds, bounds(ls[0]).1, hi, i - 1);
    } else if |ls| > 1 {
      TileIncreases(ls[1..], bounds, bounds(ls[0]).1, hi, 0);
    }
  }

  ghost function CellBounds(t: Tree, rangeMin: real, rootCell: real, l: Leaf, maxDepth: int): (real, real)
    requires Structure(t, maxDepth)
  {
    if IsGrid(t, l.grid) then
      var (min, size) := Extent(t, rangeMin, rootCell, l.grid, maxDepth);
      if l.cell == 0 then (min, min + size) else (min + size, min + size + size)
    else (0.0, 0.0)
  }

  ghost function BoundsFunc(t: Tree, rangeMin: real, rootCell: real, maxDepth: int): Bounds
    requires Structure(t, maxDepth)
  {
    (l: Leaf) => CellBounds(t, rangeMin, rootCell, l, maxDepth)
  }

  lemma {:induction false} GridTiles(t: Tree, rangeMin: real, rootCell: real, g: nat, min: real, size: real, maxDepth: int)
    requires Structure(t, maxDepth) && IsGrid(t, g) && Extent(t, rangeMin, rootCell, g, maxDepth) == (min, size) && size > 0.0
    ensures Tile(LeavesFrom(t, g, 0, maxDepth), BoundsFunc(t, rangeMin, rootCell, maxDepth), min, min + size + size)
    decreases maxDepth - t.grids[g].reldepth, 1
  {
    var bounds := BoundsFunc(t, rangeMin, rootCell, maxDepth);
    CellTiles(t, rangeMin, rootCell, g, 0, min, size, maxDepth);
    CellTiles(t, rangeMin, rootCell, g, 1, min, size, maxDepth);
    CellsTileGrid(t, g, bounds, min, size, maxDepth);
  }

  lemma CellsTileGrid(t: Tree, g: nat, bounds: Bounds, min: real, size: real, maxDepth: int)
    requires Structure(t, maxDepth) && IsGrid(t, g)
    requires Tile(LeavesOfCell(t, g, 0, maxDepth), bounds, min, min + size)
    requires Tile(LeavesOfCell(t, g, 1, maxDepth), bounds, min + size, min + size + size)
    ensures Tile(LeavesFrom(t, g, 0, maxDepth), bounds, min, min + size + size)
  {
    LeavesOfGrid(t, g, maxDepth);
    TileBoth(LeavesOfCell(t, g, 0, maxDepth), LeavesOfCell(t, g, 1, maxDepth), bounds, min, min + size, min + size + size);
  }

  lemma {:induction false} CellTiles(t: Tree, rangeMin: real, rootCell: real, g: nat, i: nat, min: real, size: real, maxDepth: int)
    requires Structure(t, maxDepth) && IsGrid(t, g) && i < K
    requires Extent(t, rangeMin, rootCell, g, maxDepth) == (min, size) && size > 0.0
    ensures var lo := if i == 0 then min else min + size;
            Tile(LeavesOfCell(t, g, i, maxDepth), BoundsFunc(t, rangeMin, rootCell, maxDepth), lo, lo + size)
    decreases maxDepth - t.grids[g].reldepth, 0
  {
    match t.grids[g].cells[i]
    case Value(_) => TileOne(Leaf(g, i), BoundsFunc(t, rangeMin, rootCell, maxDepth));
    case Link(s) =>
      assert Links(t, g, i, s);
      ExtentOfSubgrid(t, rangeMin, rootCell, g, i, s, maxDepth);
      var lo := if i == 0 then min else min + size;
      GridTiles(t, rangeMin, rootCell, s, lo, size / 2.0, maxDepth);
  }

  lemma TileOne(l: Leaf, bounds: Bounds)
    requires bounds(l).0 < bounds(l).1
    ensures Tile([l], bounds, bounds(l).0, bounds(l).1)
  {
    assert [l][1..] == [];
  }

  /** The cells cover the range from left to right without gap or overlap. */
  lemma CellsTileRange(t: Tree, rangeMin: real, rangeMax: real, maxDepth: int)
    requires Structure(t, maxDepth) && rangeMin < rangeMax
    ensures Tile(LeavesFrom(t, t.root, 0, maxDepth), BoundsFunc(t, rangeMin, (rangeMax - rangeMin) / 2.0, maxDepth), rangeMin, rangeMax)
  {
    GridTiles(t, rangeMin, (rangeMax - rangeMin) / 2.0, t.root, rangeMin, (rangeMax - rangeMin) / 2.0, maxDepth);
  }
}
