/**
 The k-split grid tree: observations inserted into a vector of linked grids, cells split, the root
 extended, and the iterator that walks over the cells.
 */
module KSplits {

  const K := 2

  /** A cell holds a value or refers to a subgrid (the source uses negative values for that). */
  datatype Cell = Value(v: real) | Link(grid: nat)

  datatype Grid = Grid(parent: nat, reldepth: int, total: real, mother: real, cells: seq<Cell>)

  /** gridv[], of which element 0 is not used, and the index of the root grid. */
  datatype Tree = Tree(grids: seq<Grid>, root: nat)

  predicate IsGrid(t: Tree, g: nat)
  {
    1 <= g < |t.grids|
  }

  predicate Links(t: Tree, g: nat, i: nat, s: nat)
    requires IsGrid(t, g)
  {
    i < |t.grids[g].cells| && t.grids[g].cells[i] == Link(s)
  }

  ghost predicate SizesOk(t: Tree, maxDepth: int)
  {
    forall g: nat :: IsGrid(t, g) ==> |t.grids[g].cells| == K && t.grids[g].reldepth <= maxDepth
  }

  ghost predicate LinksOk(t: Tree)
  {
    forall g: nat, i: nat, s: nat :: IsGrid(t, g) && Links(t, g, i, s) ==>
      IsGrid(t, s) && t.grids[s].parent == g && t.grids[s].reldepth == t.grids[g].reldepth + 1
  }

  ghost predicate LinksDiffer(t: Tree)
  {
    forall g: nat, s: nat :: IsGrid(t, g) ==> !(Links(t, g, 0, s) && Links(t, g, 1, s))
  }

  predicate HasParent(t: Tree, g: nat)
    requires IsGrid(t, g)
  {
    IsGrid(t, t.grids[g].parent) && (Links(t, t.grids[g].parent, 0, g) || Links(t, t.grids[g].parent, 1, g))
  }

  ghost predicate ParentsOk(t: Tree)
  {
    forall g: nat {:trigger HasParent(t, g)} :: IsGrid(t, g) && g != t.root ==> HasParent(t, g)
  }

  ghost predicate DepthsOk(t: Tree)
    requires IsGrid(t, t.root)
  {
    forall g: nat :: IsGrid(t, g) && g != t.root ==> t.grids[g].reldepth > t.grids[t.root].reldepth
  }

  /** Parent indices and links agree, links lead one level down, the root has no parent and every
      other grid is linked from its parent. */
  ghost predicate Structure(t: Tree, maxDepth: int)
  {
    && IsGrid(t, t.root) && t.grids[t.root].parent == 0
    && SizesOk(t, maxDepth) && LinksOk(t) && LinksDiffer(t) && ParentsOk(t) && DepthsOk(t)
  }

  function Part(t: Tree, c: Cell): real
  {
    match c
    case Value(v) => v
    case Link(s) => if s < |t.grids| then t.grids[s].total else 0.0
  }

  /** How far a grid's total is from the sum of its mother share, cells and subgrids. */
  function Gap(t: Tree, g: nat): real
    requires IsGrid(t, g) && |t.grids[g].cells| == K
  {
    t.grids[g].total - t.grids[g].mother - Part(t, t.grids[g].cells[0]) - Part(t, t.grids[g].cells[1])
  }

  ghost predicate GapsAre(t: Tree, at: nat, gap: real)
  {
    forall g: nat :: IsGrid(t, g) && |t.grids[g].cells| == K ==> Gap(t, g) == if g == at then gap else 0.0
  }

  /** Every grid's total is the sum of its cells, its subgrids and its mother share. */
  ghost predicate TotalsOk(t: Tree)
  {
    GapsAre(t, 0, 0.0)
  }

  lemma GapDecides(t: Tree, g: nat, gap: real)
    requires IsGrid(t, g) && |t.grids[g].cells| == K && GapsAre(t, g, gap)
    ensures TotalsOk(t) <==> gap == 0.0
  {
    assert Gap(t, g) == gap;
  }

  // ---------------------------------------------------------------- changes to one grid

  function WithTotal(t: Tree, g: nat, total: real): Tree
    requires IsGrid(t, g)
  {
    t.(grids := t.grids[g := t.grids[g].(total := total)])
  }

  function WithCell(t: Tree, g: nat, i: nat, c: Cell): Tree
    requires IsGrid(t, g) && i < |t.grids[g].cells|
  {
    t.(grids := t.grids[g := t.grids[g].(cells := t.grids[g].cells[i := c])])
  }

  lemma TotalKeepsStructure(t: Tree, g: nat, total: real, maxDepth: int)
    requires Structure(t, maxDepth) && IsGrid(t, g)
    ensures Structure(WithTotal(t, g, total), maxDepth)
  {
    var u := WithTotal(t, g, total);
    assert forall h: nat :: IsGrid(u, h) ==> u.grids[h].cells == t.grids[h].cells && u.grids[h].parent == t.grids[h].parent
                                             && u.grids[h].reldepth == t.grids[h].reldepth;
    assert forall h, i, s :: IsGrid(t, h) ==> (Links(u, h, i, s) <==> Links(t, h, i, s));
    SameParents(t, u);
  }

  lemma SameParents(t: Tree, u: Tree)
    requires |u.grids| == |t.grids| && u.root == t.root && ParentsOk(t)
    requires forall h: nat :: IsGrid(u, h) ==> u.grids[h].parent == t.grids[h].parent
    requires forall h: nat, i: nat, s: nat :: IsGrid(t, h) ==> (Links(u, h, i, s) <==> Links(t, h, i, s))
    ensures ParentsOk(u)
  {
    forall h: nat | IsGrid(u, h) && h != u.root
      ensures HasParent(u, h)
    {
      assert HasParent(t, h);
    }
  }

  /** One more observation below grid g opens a gap in g and closes the one in its parent. */
  lemma BumpMovesGap(t: Tree, g: nat, maxDepth: int)
    requires Structure(t, maxDepth) && IsGrid(t, g)
    requires GapsAre(t, t.grids[g].parent, 1.0)
    ensures GapsAre(WithTotal(t, g, t.grids[g].total + 1.0), g, 1.0)
  {
    var u := WithTotal(t, g, t.grids[g].total + 1.0);
    var p := t.grids[g].parent;
    forall h: nat | IsGrid(u, h) && |u.grids[h].cells| == K
      ensures Gap(u, h) == if h == g then 1.0 else 0.0
    {
      OneGapMoves(t, u, g, h, maxDepth);
    }
  }

  lemma OneGapMoves(t: Tree, u: Tree, g: nat, h: nat, maxDepth: int)
    requires Structure(t, maxDepth) && IsGrid(t, g) && u == WithTotal(t, g, t.grids[g].total + 1.0)
    requires IsGrid(t, h)
    ensures Gap(u, h) == Gap(t, h) + (if h == g then 1.0 else 0.0) - (if h == t.grids[g].parent then 1.0 else 0.0)
  {
    var c0, c1 := t.grids[h].cells[0], t.grids[h].cells[1];
    assert u.grids[h].cells == t.grids[h].cells && u.grids[h].mother == t.grids[h].mother;
    assert c0 == Link(g) ==> Links(t, h, 0, g);
    assert c1 == Link(g) ==> Links(t, h, 1, g);
    PartMoves(t, u, g, c0);
    PartMoves(t, u, g, c1);
    if h == t.grids[g].parent {
      assert g != t.root ==> HasParent(t, g);
    }
  }

  lemma PartMoves(t: Tree, u: Tree, g: nat, c: Cell)
    requires IsGrid(t, g) && u == WithTotal(t, g, t.grids[g].total + 1.0)
    ensures Part(u, c) == Part(t, c) + if c == Link(g) then 1.0 else 0.0
  {
  }

  lemma ValueKeepsStructure(t: Tree, g: nat, i: nat, w: real, maxDepth: int)
    requires Structure(t, maxDepth) && IsGrid(t, g) && i < K && t.grids[g].cells[i].Value?
    ensures Structure(WithCell(t, g, i, Value(w)), maxDepth)
  {
    var u := WithCell(t, g, i, Value(w));
    assert forall h: nat :: IsGrid(u, h) ==> u.grids[h].parent == t.grids[h].parent && u.grids[h].reldepth == t.grids[h].reldepth;
    assert forall h, j, s :: IsGrid(t, h) ==> (Links(u, h, j, s) <==> Links(t, h, j, s));
    SameParents(t, u);
  }

  /** Adding to a leaf cell changes that grid's gap only. */
  lemma AddFillsGap(t: Tree, g: nat, i: nat, w: real, maxDepth: int)
    requires Structure(t, maxDepth) && IsGrid(t, g) && i < K && t.grids[g].cells[i].Value? && GapsAre(t, g, 1.0)
    ensures GapsAre(WithCell(t, g, i, Value(t.grids[g].cells[i].v + w)), g, 1.0 - w)
  {
    var u := WithCell(t, g, i, Value(t.grids[g].cells[i].v + w));
    forall h: nat | IsGrid(u, h) && |u.grids[h].cells| == K
      ensures Gap(u, h) == if h == g then 1.0 - w else 0.0
    {
      assert |t.grids[h].cells| == K && Gap(t, h) == if h == g then 1.0 else 0.0;
      SameParts(t, u, t.grids[h].cells[0]);
      SameParts(t, u, t.grids[h].cells[1]);
    }
  }

  lemma SameParts(t: Tree, u: Tree, c: Cell)
    requires |u.grids| == |t.grids| && forall g :: 0 <= g < |t.grids| ==> u.grids[g].total == t.grids[g].total
    ensures Part(u, c) == Part(t, c)
  {
  }

  // ---------------------------------------------------------------- splitting a cell

  /** splitCell(): the cell's value becomes the mother share of a new, empty subgrid. */
  function Split(t: Tree, g: nat, i: nat): Tree
    requires IsGrid(t, g) && i < |t.grids[g].cells| && t.grids[g].cells[i].Value?
  {
    var v := t.grids[g].cells[i].v;
    var sub := Grid(g, t.grids[g].reldepth + 1, v, v, [Value(0.0), Value(0.0)]);
    var t' := WithCell(t, g, i, Link(|t.grids|));
    t'.(grids := t'.grids + [sub])
  }

  lemma LinksAfterSplit(t: Tree, g: nat, i: nat, h: nat, j: nat, s: nat)
    requires IsGrid(t, g) && i < |t.grids[g].cells| && t.grids[g].cells[i].Value? && IsGrid(Split(t, g, i), h)
    ensures Links(Split(t, g, i), h, j, s) <==> (IsGrid(t, h) && Links(t, h, j, s)) || (h == g && j == i && s == |t.grids|)
  {
  }

  lemma SplitKeepsLinks(t: Tree, g: nat, i: nat, maxDepth: int)
    requires Structure(t, maxDepth) && IsGrid(t, g) && i < K && t.grids[g].cells[i].Value?
    ensures LinksOk(Split(t, g, i)) && LinksDiffer(Split(t, g, i))
  {
    var u, n := Split(t, g, i), |t.grids|;
    forall h: nat, j: nat, s: nat | IsGrid(u, h) && Links(u, h, j, s)
      ensures IsGrid(u, s) && u.grids[s].parent == h && u.grids[s].reldepth == u.grids[h].reldepth + 1
    {
      LinksAfterSplit(t, g, i, h, j, s);
    }
    forall h: nat, s: nat | IsGrid(u, h)
      ensures !(Links(u, h, 0, s) && Links(u, h, 1, s))
    {
      LinksAfterSplit(t, g, i, h, 0, s);
      LinksAfterSplit(t, g, i, h, 1, s);
      assert IsGrid(t, h) && s == n ==> !Links(t, h, 0, s) && !Links(t, h, 1, s);
    }
  }

  lemma SplitKeepsParents(t: Tree, g: nat, i: nat, maxDepth: int)
    requires Structure(t, maxDepth) && IsGrid(t, g) && i < K && t.grids[g].cells[i].Value?
    ensures ParentsOk(Split(t, g, i))
  {
    var u := Split(t, g, i);
    forall h: nat | IsGrid(u, h) && h != u.root
      ensures HasParent(u, h)
    {
      assert IsGrid(t, h) && h != t.root ==> HasParent(t, h);
      var p := u.grids[h].parent;
      LinksAfterSplit(t, g, i, p, 0, h);
      LinksAfterSplit(t, g, i, p, 1, h);
    }
  }

  lemma SplitKeepsStructure(t: Tree, g: nat, i: nat, maxDepth: int)
    requires Structure(t, maxDepth) && IsGrid(t, g) && i < K && t.grids[g].cells[i].Value?
    ensures Structure(Split(t, g, i), maxDepth + 1)
  {
    SplitKeepsLinks(t, g, i, maxDepth);
    SplitKeepsParents(t, g, i, maxDepth);
  }

  lemma SplitKeepsGaps(t: Tree, g: nat, i: nat, at: nat, gap: real, maxDepth: int)
    requires Structure(t, maxDepth) && IsGrid(t, g) && i < K && t.grids[g].cells[i].Value? && GapsAre(t, at, gap)
    requires at < |t.grids|
    ensures GapsAre(Split(t, g, i), at, gap)
  {
    var u, n := Split(t, g, i), |t.grids|;
    forall h: nat | IsGrid(u, h) && |u.grids[h].cells| == K
      ensures Gap(u, h) == if h == at then gap else 0.0
    {
      if h < n {
        assert |t.grids[h].cells| == K && Gap(t, h) == if h == at then gap else 0.0;
        PartAfterSplit(t, u, g, i, h, 0, maxDepth);
        PartAfterSplit(t, u, g, i, h, 1, maxDepth);
      }
    }
  }

  lemma PartAfterSplit(t: Tree, u: Tree, g: nat, i: nat, h: nat, j: nat, maxDepth: int)
    requires Structure(t, maxDepth) && IsGrid(t, g) && i < K && t.grids[g].cells[i].Value? && u == Split(t, g, i)
    requires IsGrid(t, h) && j < K
    ensures Part(u, u.grids[h].cells[j]) == Part(t, t.grids[h].cells[j])
  {
    if t.grids[h].cells[j].Link? {
      assert Links(t, h, j, t.grids[h].cells[j].grid);
    }
  }

  // ---------------------------------------------------------------- a new root

  /** One turn of newRootGrids(): the old root becomes cell i of a new one. */
  function NewRoot(t: Tree, i: nat): Tree
    requires IsGrid(t, t.root) && i < K
  {
    var n := |t.grids|;
    var before := t.grids[t.root];
    var top := Grid(0, before.reldepth - 1, before.total, 0.0, [Value(0.0), Value(0.0)][i := Link(t.root)]);
    Tree(t.grids[t.root := before.(parent := n)] + [top], n)
  }

  lemma LinksAfterNewRoot(t: Tree, i: nat, h: nat, j: nat, s: nat)
    requires IsGrid(t, t.root) && i < K && IsGrid(NewRoot(t, i), h)
    ensures Links(NewRoot(t, i), h, j, s) <==> (IsGrid(t, h) && Links(t, h, j, s)) || (h == |t.grids| && j == i && s == t.root)
  {
  }

  lemma NewRootKeepsLinks(t: Tree, i: nat, maxDepth: int)
    requires Structure(t, maxDepth) && i < K
    ensures LinksOk(NewRoot(t, i)) && LinksDiffer(NewRoot(t, i))
  {
    var u := NewRoot(t, i);
    forall h: nat, j: nat, s: nat | IsGrid(u, h) && Links(u, h, j, s)
      ensures IsGrid(u, s) && u.grids[s].parent == h && u.grids[s].reldepth == u.grids[h].reldepth + 1
    {
      LinksAfterNewRoot(t, i, h, j, s);
    }
    forall h: nat, s: nat | IsGrid(u, h)
      ensures !(Links(u, h, 0, s) && Links(u, h, 1, s))
    {
      LinksAfterNewRoot(t, i, h, 0, s);
      LinksAfterNewRoot(t, i, h, 1, s);
    }
  }

  lemma NewRootKeepsParents(t: Tree, i: nat, maxDepth: int)
    requires Structure(t, maxDepth) && i < K
    ensures ParentsOk(NewRoot(t, i))
  {
    var u := NewRoot(t, i);
    forall h: nat | IsGrid(u, h) && h != u.root
      ensures HasParent(u, h)
    {
      assert IsGrid(t, h) && h != t.root ==> HasParent(t, h);
      var p := u.grids[h].parent;
      LinksAfterNewRoot(t, i, p, 0, h);
      LinksAfterNewRoot(t, i, p, 1, h);
    }
  }

  lemma NewRootKeepsStructure(t: Tree, i: nat, maxDepth: int)
    requires Structure(t, maxDepth) && i < K
    ensures Structure(NewRoot(t, i), maxDepth)
  {
    NewRootKeepsLinks(t, i, maxDepth);
    NewRootKeepsParents(t, i, maxDepth);
  }

  lemma NewRootKeepsTotals(t: Tree, i: nat, maxDepth: int)
    requires Structure(t, maxDepth) && i < K && TotalsOk(t)
    ensures TotalsOk(NewRoot(t, i))
  {
    var u, n := NewRoot(t, i), |t.grids|;
    forall h: nat | IsGrid(u, h) && |u.grids[h].cells| == K
      ensures Gap(u, h) == 0.0
    {
      if h < n {
        assert |t.grids[h].cells| == K && Gap(t, h) == 0.0;
        LinksStay(t, u, h, 0, maxDepth);
        LinksStay(t, u, h, 1, maxDepth);
      }
    }
  }

  lemma LinksStay(t: Tree, u: Tree, h: nat, j: nat, maxDepth: int)
    requires Structure(t, maxDepth) && IsGrid(t, h) && j < K && |u.grids| >= |t.grids|
    requires forall g :: 0 <= g < |t.grids| ==> u.grids[g].total == t.grids[g].total
    ensures Part(u, t.grids[h].cells[j]) == Part(t, t.grids[h].cells[j])
  {
    if t.grids[h].cells[j].Link? {
      assert Links(t, h, j, t.grids[h].cells[j].grid);
    }
  }

  // ---------------------------------------------------------------- leaf cells, left to right

  datatype Leaf = Leaf(grid: nat, cell: nat)

  /** The leaf cells in and below the cells of grid g from cell c on. */
  ghost function LeavesFrom(t: Tree, g: nat, c: nat, maxDepth: int): seq<Leaf>
    requires Structure(t, maxDepth) && IsGrid(t, g) && c <= K
    decreases maxDepth - t.grids[g].reldepth, K - c
  {
    if c == K then []
    else
      (match t.grids[g].cells[c]
       case Value(_) => [Leaf(g, c)]
       case Link(s) => assert Links(t, g, c, s); LeavesFrom(t, s, 0, maxDepth))
      + LeavesFrom(t, g, c + 1, maxDepth)
  }

  /** All that grid g and the grids below it hold: mother shares and cell values. */
  ghost function Weight(t: Tree, g: nat, c: nat, maxDepth: int): real
    requires Structure(t, maxDepth) && IsGrid(t, g) && c <= K
    decreases maxDepth - t.grids[g].reldepth, K - c
  {
    if c == K then t.grids[g].mother
    else
      (match t.grids[g].cells[c]
       case Value(v) => v
       case Link(s) => assert Links(t, g, c, s); Weight(t, s, 0, maxDepth))
      + Weight(t, g, c + 1, maxDepth)
  }

  /** Exact totals mean that the root's total is the weight of the whole tree. */
  lemma {:induction false} TotalIsWeight(t: Tree, g: nat, maxDepth: int)
    requires Structure(t, maxDepth) && IsGrid(t, g) && TotalsOk(t)
    ensures t.grids[g].total == Weight(t, g, 0, maxDepth)
    decreases maxDepth - t.grids[g].reldepth
  {
    assert Gap(t, g) == 0.0;
    var c0, c1 := t.grids[g].cells[0], t.grids[g].cells[1];
    if c0.Link? {
      assert Links(t, g, 0, c0.grid);
      TotalIsWeight(t, c0.grid, maxDepth);
    }
    if c1.Link? {
      assert Links(t, g, 1, c1.grid);
      TotalIsWeight(t, c1.grid, maxDepth);
    }
    assert Weight(t, g, 2, maxDepth) == t.grids[g].mother;
    assert Weight(t, g, 1, maxDepth) == Part(t, c1) + t.grids[g].mother;
  }

  /** Which cell of its parent a grid is. */
  function IndexIn(t: Tree, g: nat): (i: nat)
    requires IsGrid(t, g) && IsGrid(t, t.grids[g].parent)
    ensures i < K
  {
    if Links(t, t.grids[g].parent, 0, g) then 0 else 1
  }

  /** The leaf cells to the right of grid g. */
  ghost function RightOf(t: Tree, g: nat, maxDepth: int): seq<Leaf>
    requires Structure(t, maxDepth) && IsGrid(t, g)
    decreases t.grids[g].reldepth - t.grids[t.root].reldepth
  {
    if g == t.root then []
    else
      var p := t.grids[g].parent;
      assert HasParent(t, g) && Links(t, p, IndexIn(t, g), g);
      LeavesFrom(t, p, IndexIn(t, g) + 1, maxDepth) + RightOf(t, p, maxDepth)
  }

  /** All leaf cells from cell c of grid g on. */
  ghost function Ahead(t: Tree, g: nat, c: nat, maxDepth: int): seq<Leaf>
    requires Structure(t, maxDepth) && IsGrid(t, g) && c <= K
  {
    LeavesFrom(t, g, c, maxDepth) + RightOf(t, g, maxDepth)
  }

  lemma AheadOfParent(t: Tree, g: nat, maxDepth: int)
    requires Structure(t, maxDepth) && IsGrid(t, g) && g != t.root
    ensures IsGrid(t, t.grids[g].parent)
    ensures Ahead(t, g, K, maxDepth) == Ahead(t, t.grids[g].parent, IndexIn(t, g) + 1, maxDepth)
  {
    assert HasParent(t, g) && Links(t, t.grids[g].parent, IndexIn(t, g), g);
    assert LeavesFrom(t, g, K, maxDepth) == [];
    assert [] + RightOf(t, g, maxDepth) == RightOf(t, g, maxDepth);
  }

  lemma AheadOfSubgrid(t: Tree, g: nat, c: nat, s: nat, maxDepth: int)
    requires Structure(t, maxDepth) && IsGrid(t, g) && c < K && t.grids[g].cells[c] == Link(s)
    ensures IsGrid(t, s) && Ahead(t, g, c, maxDepth) == Ahead(t, s, 0, maxDepth)
  {
    assert Links(t, g, c, s);
    assert IndexIn(t, s) == c;
    var x, y, z := LeavesFrom(t, s, 0, maxDepth), LeavesFrom(t, g, c + 1, maxDepth), RightOf(t, g, maxDepth);
    assert x + y + z == x + (y + z);
  }

  lemma AheadOfLeaf(t: Tree, g: nat, c: nat, maxDepth: int)
    requires Structure(t, maxDepth) && IsGrid(t, g) && c < K && t.grids[g].cells[c].Value?
    ensures Ahead(t, g, c, maxDepth) == [Leaf(g, c)] + Ahead(t, g, c + 1, maxDepth)
  {
    var y, z := LeavesFrom(t, g, c + 1, maxDepth), RightOf(t, g, maxDepth);
    assert [Leaf(g, c)] + y + z == [Leaf(g, c)] + (y + z);
  }

  /** Left edge and cell width of a grid, given those of the root. */
  ghost function Extent(t: Tree, rangeMin: real, rootCell: real, g: nat, maxDepth: int): (real, real)
    requires Structure(t, maxDepth) && IsGrid(t, g)
    decreases t.grids[g].reldepth - t.grids[t.root].reldepth
  {
    if g == t.root then (rangeMin, rootCell)
    else
      var p := t.grids[g].parent;
      assert HasParent(t, g) && Links(t, p, IndexIn(t, g), g);
      var (min, size) := Extent(t, rangeMin, rootCell, p, maxDepth);
      (min + (if IndexIn(t, g) == 0 then 0.0 else size), size / 2.0)
  }

  /** The extent of a subgrid, and of a parent, from the other. */
  lemma ExtentOfSubgrid(t: Tree, rangeMin: real, rootCell: real, g: nat, c: nat, s: nat, maxDepth: int)
    requires Structure(t, maxDepth) && IsGrid(t, g) && c < K && t.grids[g].cells[c] == Link(s)
    ensures IsGrid(t, s) && IsGrid(t, t.grids[s].parent) && IndexIn(t, s) == c && s != t.root
    ensures var (min, size) := Extent(t, rangeMin, rootCell, g, maxDepth);
            Extent(t, rangeMin, rootCell, s, maxDepth) == (min + (if c == 0 then 0.0 else size), size / 2.0)
  {
    assert Links(t, g, c, s);
  }

  // ---------------------------------------------------------------- extents that stay

  /** The grids of t are where they were. */
  ghost predicate SamePlaces(t: Tree, u: Tree)
  {
    && u.root == t.root && |t.grids| <= |u.grids|
    && (forall h: nat :: IsGrid(t, h) ==> u.grids[h].parent == t.grids[h].parent)
    && (forall p: nat, h: nat :: IsGrid(t, p) && IsGrid(t, h) ==> (Links(u, p, 0, h) <==> Links(t, p, 0, h)))
  }

  lemma {:induction false} ExtentKept(t: Tree, u: Tree, rangeMin: real, rootCell: real, h: nat, depth: int, depth': int)
    requires Structure(t, depth) && Structure(u, depth') && SamePlaces(t, u) && IsGrid(t, h)
    ensures Extent(u, rangeMin, rootCell, h, depth') == Extent(t, rangeMin, rootCell, h, depth)
    decreases t.grids[h].reldepth - t.grids[t.root].reldepth
  {
    if h != t.root {
      var p := t.grids[h].parent;
      assert HasParent(t, h) && HasParent(u, h) && Links(t, p, IndexIn(t, h), h);
      assert IndexIn(u, h) == IndexIn(t, h);
      ExtentKept(t, u, rangeMin, rootCell, p, depth, depth');
    }
  }

  lemma CountedInPlace(t: Tree, g: nat, total: real)
    requires IsGrid(t, g)
    ensures SamePlaces(t, WithTotal(t, g, total))
  {
  }

  lemma ChangedInPlace(t: Tree, g: nat, i: nat, w: real)
    requires IsGrid(t, g) && i < |t.grids[g].cells| && t.grids[g].cells[i].Value?
    ensures SamePlaces(t, WithCell(t, g, i, Value(w)))
  {
  }

  lemma SplitInPlace(t: Tree, g: nat, i: nat)
    requires IsGrid(t, g) && i < |t.grids[g].cells| && t.grids[g].cells[i].Value?
    ensures SamePlaces(t, Split(t, g, i))
  {
  }

  /** Only totals differ. */
  predicate OnlyTotals(t: Tree, u: Tree)
  {
    u.root == t.root && |u.grids| == |t.grids|
    && forall h :: 0 <= h < |t.grids| ==> u.grids[h] == t.grids[h].(total := u.grids[h].total)
  }

  /** A new root around a range of twice the size leaves every grid where it was. */
  lemma {:induction false} ExtentInNewRoot(t: Tree, i: nat, min: real, size: real, min': real, h: nat, depth: int)
    requires i < K && Structure(t, depth) && Structure(NewRoot(t, i), depth) && IsGrid(t, h)
    requires min' == min - if i == 0 then 0.0 else size
    ensures Extent(NewRoot(t, i), min', size, h, depth) == Extent(t, min, size / 2.0, h, depth)
    decreases t.grids[h].reldepth - t.grids[t.root].reldepth
  {
    var u := NewRoot(t, i);
    assert HasParent(u, h);
    if h == t.root {
      assert Links(u, u.root, i, h);
      assert Extent(u, min', size, u.root, depth) == (min', size);
    } else {
      var p := t.grids[h].parent;
      assert HasParent(t, h) && Links(t, p, IndexIn(t, h), h);
      LinksAfterNewRoot(t, i, p, 0, h);
      ExtentInNewRoot(t, i, min, size, min', p, depth);
    }
  }

  /** The grids of t are in u, with the same cells and at the same place. */
  ghost predicate StillThere(t: Tree, min: real, size: real, depth: int, u: Tree, min': real, size': real, depth': int)
    requires Structure(t, depth) && Structure(u, depth')
  {
    && |t.grids| <= |u.grids|
    && forall h: nat :: IsGrid(t, h) ==>
         u.grids[h].cells == t.grids[h].cells && Extent(u, min', size', h, depth') == Extent(t, min, size, h, depth)
  }

  lemma NewRootLeavesGrids(t: Tree, i: nat, min: real, size: real, min': real, depth: int)
    requires i < K && Structure(t, depth) && Structure(NewRoot(t, i), depth)
    requires min' == min - if i == 0 then 0.0 else size
    ensures StillThere(t, min, size / 2.0, depth, NewRoot(t, i), min', size, depth)
  {
    forall h: nat | IsGrid(t, h)
      ensures Extent(NewRoot(t, i), min', size, h, depth) == Extent(t, min, size / 2.0, h, depth)
    {
      ExtentInNewRoot(t, i, min, size, min', h, depth);
    }
  }

  /** n new roots, one around the other. */
  function NewRoots(t: Tree, i: nat, n: nat): (u: Tree)
    requires IsGrid(t, t.root) && i < K
    ensures IsGrid(u, u.root) && |u.grids| == |t.grids| + n && (n > 0 ==> u.root == |u.grids| - 1)
  {
    if n == 0 then t else NewRoot(NewRoots(t, i, n - 1), i)
  }

  function Doubled(size: real, n: nat): real
  {
    if n == 0 then size else 2.0 * Doubled(size, n - 1)
  }

  lemma {:induction false} NewRootsKeepStructure(t: Tree, i: nat, n: nat, depth: int)
    requires i < K && Structure(t, depth)
    ensures Structure(NewRoots(t, i, n), depth)
  {
    if n > 0 {
      NewRootsKeepStructure(t, i, n - 1, depth);
      NewRootKeepsStructure(NewRoots(t, i, n - 1), i, depth);
    }
  }

  /** Where the range begins after n doublings, upward (the old root as cell 0 each time) or downward
      (as cell 1). */
  function MinAfter(i: nat, min: real, size: real, n: nat): real
  {
    if i == 0 then min else min + size - Doubled(size, n)
  }

  /** Doubling the range, which is from min on and of the given size, leaves every grid where it was. */
  lemma {:induction false} NewRootsLeaveGrids(t: Tree, i: nat, n: nat, min: real, size: real, depth: int)
    requires i < K && Structure(t, depth)
    ensures Structure(NewRoots(t, i, n), depth)
    ensures StillThere(t, min, size / 2.0, depth, NewRoots(t, i, n), MinAfter(i, min, size, n), Doubled(size, n) / 2.0, depth)
  {
    if n > 0 {
      NewRootsLeaveGrids(t, i, n - 1, min, size, depth);
      var u := NewRoots(t, i, n - 1);
      NewRootKeepsStructure(u, i, depth);
      OneRootMore(t, min, size / 2.0, u, i, MinAfter(i, min, size, n - 1), Doubled(size, n - 1),
                  MinAfter(i, min, size, n), Doubled(size, n), depth);
    }
  }

  lemma OneRootMore(t: Tree, min: real, size: real, u: Tree, i: nat, min': real, before: real, min'': real, after: real,
                    depth: int)
    requires after == 2.0 * before
    requires i < K && Structure(t, depth) && Structure(u, depth) && Structure(NewRoot(u, i), depth)
    requires StillThere(t, min, size, depth, u, min', before / 2.0, depth) && min'' == min' - if i == 0 then 0.0 else before
    ensures StillThere(t, min, size, depth, NewRoot(u, i), min'', after / 2.0, depth)
  {
    assert after / 2.0 == before;
    NewRootLeavesGrids(u, i, min', before, min'', depth);
    StillThereLater(t, min, size, depth, u, min', before / 2.0, depth, NewRoot(u, i), min'', before, depth);
  }

  lemma StillThereLater(t: Tree, min: real, size: real, d: int, u: Tree, min': real, size': real, d': int,
                        v: Tree, min'': real, size'': real, d'': int)
    requires Structure(t, d) && Structure(u, d') && Structure(v, d'')
    requires StillThere(t, min, size, d, u, min', size', d') && StillThere(u, min', size', d', v, min'', size'', d'')
    ensures StillThere(t, min, size, d, v, min'', size'', d'')
  {
    forall h: nat | IsGrid(t, h)
      ensures v.grids[h].cells == t.grids[h].cells && Extent(v, min'', size'', h, d'') == Extent(t, min, size, h, d)
    {
      assert IsGrid(u, h);
    }
  }
}
