/**
 The values of k-split cells as callers see them: the observations that a grid inherited from the
 cell it was split from are spread over its cells, level by level. Also the number of cells.
 */
module KSplitValues {
  import opened Options
  import opened KSplits

  /** C++ conversion to int. */
  function Trunc(x: real): int
  {
    if x >= 0.0 then x.Floor else -((-x).Floor)
  }

  /** The division criterion: how far a grid's inherited observations go by its new ones. */
  type DivFunc = (Tree, nat, real) -> real

  function TotalOf(t: Tree, c: Cell): real
  {
    match c
    case Value(v) => v
    case Link(s) => if s < |t.grids| then t.grids[s].total else 0.0
  }

  function MotherOf(t: Tree, c: Cell): real
  {
    match c
    case Value(v) => v
    case Link(s) => if s < |t.grids| then t.grids[s].mother else 0.0
  }

  /** What a cell gets of the mother observations: between an even and a proportional division. */
  function Share(lambda: real, mother: real, part: real, whole: real): real
    requires whole != 0.0
  {
    (1.0 - lambda) * (mother / 2.0) + lambda * (mother * part / whole)
  }

  /** getRealCellValue(); None when the result is not a finite number. */
  function RealCellValue(t: Tree, g: nat, i: nat, div: DivFunc, ghost maxDepth: int): Option<real>
    requires Structure(t, maxDepth) && IsGrid(t, g) && i < K
    decreases t.grids[g].reldepth - t.grids[t.root].reldepth
  {
    match Inherited(t, g, div, maxDepth)
    case None => None
    case Some(mother) =>
      var grid := t.grids[g];
      if grid.total == grid.mother then None
      else
        Some(Trunc(MotherOf(t, grid.cells[i])) as real
             + Share(div(t, g, mother), mother, Trunc(TotalOf(t, grid.cells[i])) as real, grid.total - grid.mother))
  }

  /** The observations that grid g has to spread: its parent cell's value. */
  function Inherited(t: Tree, g: nat, div: DivFunc, ghost maxDepth: int): Option<real>
    requires Structure(t, maxDepth) && IsGrid(t, g)
    decreases t.grids[g].reldepth - t.grids[t.root].reldepth, 0
  {
    if t.grids[g].parent == 0 then Some(0.0)
    else
      var p := t.grids[g].parent;
      assert HasParent(t, g) && Links(t, p, IndexIn(t, g), g);
      RealCellValue(t, p, IndexIn(t, g), div, maxDepth)
  }

  // ---------------------------------------------------------------- what the cells add up to

  predicate IsInteger(x: real)
  {
    x == x.Floor as real
  }

  lemma TruncOfInteger(x: real)
    requires IsInteger(x)
    ensures Trunc(x) as real == x
  {
    assert -x == (-x.Floor) as real;
  }

  predicate WholeCell(c: Cell)
  {
    c.Value? ==> IsInteger(c.v)
  }

  predicate WholeGrid(g: Grid)
  {
    && IsInteger(g.total) && IsInteger(g.mother)
    && forall i: nat :: i < |g.cells| ==> WholeCell(g.cells[i])
  }

  /** Observations have been counted, not weighted by fractions. */
  ghost predicate Whole(t: Tree)
  {
    forall g: nat :: IsGrid(t, g) ==> WholeGrid(t.grids[g])
  }

  /** Something was counted in the grid since it was created. */
  predicate HasOwn(t: Tree, g: nat)
    requires IsGrid(t, g)
  {
    t.grids[g].total != t.grids[g].mother
  }

  ghost predicate Populated(t: Tree)
  {
    forall g: nat :: IsGrid(t, g) ==> HasOwn(t, g)
  }

  function Plus(a: Option<real>, b: Option<real>): Option<real>
  {
    if a.Some? && b.Some? then Some(a.value + b.value) else None
  }

  function ValueAt(t: Tree, l: Leaf, div: DivFunc, ghost maxDepth: int): Option<real>
    requires Structure(t, maxDepth)
  {
    if IsGrid(t, l.grid) && l.cell < K then RealCellValue(t, l.grid, l.cell, div, maxDepth) else None
  }

  function SumOf(ls: seq<Leaf>, value: Leaf -> Option<real>): Option<real>
  {
    if ls == [] then Some(0.0) else Plus(value(ls[0]), SumOf(ls[1..], value))
  }

  lemma {:induction false} SumOfBoth(a: seq<Leaf>, b: seq<Leaf>, value: Leaf -> Option<real>)
    ensures SumOf(a + b, value) == Plus(SumOf(a, value), SumOf(b, value))
  {
    if a == [] {
      assert [] + b == b;
    } else {
      SumOfBoth(a[1..], b, value);
      assert (a + b)[1..] == a[1..] + b;
    }
  }

  ghost function ValueFunc(t: Tree, div: DivFunc, maxDepth: int): Leaf -> Option<real>
    requires Structure(t, maxDepth)
  {
    (l: Leaf) => ValueAt(t, l, div, maxDepth)
  }

  /** The sum of the values of some cells; None if one of them is not a number. */
  ghost function ValueSum(t: Tree, ls: seq<Leaf>, div: DivFunc, maxDepth: int): Option<real>
    requires Structure(t, maxDepth)
  {
    SumOf(ls, ValueFunc(t, div, maxDepth))
  }

  lemma ValueSumOfBoth(t: Tree, a: seq<Leaf>, b: seq<Leaf>, div: DivFunc, maxDepth: int)
    requires Structure(t, maxDepth)
    ensures ValueSum(t, a + b, div, maxDepth) == Plus(ValueSum(t, a, div, maxDepth), ValueSum(t, b, div, maxDepth))
  {
    SumOfBoth(a, b, ValueFunc(t, div, maxDepth));
  }

  /** What is handed to the two cells of a grid is what the grid inherited, for any lambda. */
  lemma SharesAddUp(lambda: real, mother: real, a: real, b: real, whole: real)
    requires whole != 0.0 && a + b == whole
    ensures Share(lambda, mother, a, whole) + Share(lambda, mother, b, whole) == mother
  {
    var pa, pb := mother * a / whole, mother * b / whole;
    assert mother * a + mother * b == mother * whole;
    assert pa * whole + pb * whole == mother * whole;
    SameQuotient(pa + pb, mother, whole);
    Halves(lambda, mother);
    assert lambda * pa + lambda * pb == lambda * mother;
  }

  lemma SameQuotient(x: real, y: real, whole: real)
    requires whole != 0.0 && x * whole == y * whole
    ensures x == y
  {
    assert x == x * whole / whole && y == y * whole / whole;
  }

  lemma Halves(lambda: real, mother: real)
    ensures (1.0 - lambda) * (mother / 2.0) + (1.0 - lambda) * (mother / 2.0) + lambda * mother == mother
  {
  }

  /** The leaf cells in and below cell i of grid g. */
  ghost function LeavesOfCell(t: Tree, g: nat, i: nat, maxDepth: int): seq<Leaf>
    requires Structure(t, maxDepth) && IsGrid(t, g) && i < K
  {
    match t.grids[g].cells[i]
    case Value(_) => [Leaf(g, i)]
    case Link(s) => assert Links(t, g, i, s); LeavesFrom(t, s, 0, maxDepth)
  }

  lemma LeavesOfGrid(t: Tree, g: nat, maxDepth: int)
    requires Structure(t, maxDepth) && IsGrid(t, g)
    ensures LeavesFrom(t, g, 0, maxDepth) == LeavesOfCell(t, g, 0, maxDepth) + LeavesOfCell(t, g, 1, maxDepth)
  {
    assert LeavesFrom(t, g, 2, maxDepth) == [];
    assert LeavesFrom(t, g, 1, maxDepth) == LeavesOfCell(t, g, 1, maxDepth) + [];
  }

  lemma SumOfGrid(t: Tree, g: nat, div: DivFunc, maxDepth: int)
    requires Structure(t, maxDepth) && IsGrid(t, g)
    ensures ValueSum(t, LeavesFrom(t, g, 0, maxDepth), div, maxDepth)
            == Plus(ValueSum(t, LeavesOfCell(t, g, 0, maxDepth), div, maxDepth), ValueSum(t, LeavesOfCell(t, g, 1, maxDepth), div, maxDepth))
  {
    LeavesOfGrid(t, g, maxDepth);
    ValueSumOfBoth(t, LeavesOfCell(t, g, 0, maxDepth), LeavesOfCell(t, g, 1, maxDepth), div, maxDepth);
  }

  lemma SumOfOne(l: Leaf, value: Leaf -> Option<real>)
    ensures SumOf([l], value) == value(l)
  {
    assert [l][1..] == [];
    assert SumOf([l][1..], value) == Some(0.0);
  }

  lemma SumOfLeaf(t: Tree, g: nat, i: nat, div: DivFunc, maxDepth: int)
    requires Structure(t, maxDepth) && IsGrid(t, g) && i < K && t.grids[g].cells[i].Value?
    ensures ValueSum(t, LeavesOfCell(t, g, i, maxDepth), div, maxDepth) == RealCellValue(t, g, i, div, maxDepth)
  {
    SumOfOne(Leaf(g, i), ValueFunc(t, div, maxDepth));
  }

  /** A subgrid inherits the value of the cell it hangs on. */
  lemma InheritedOfSubgrid(t: Tree, g: nat, i: nat, s: nat, div: DivFunc, maxDepth: int)
    requires Structure(t, maxDepth) && IsGrid(t, g) && i < K && t.grids[g].cells[i] == Link(s)
    ensures IsGrid(t, s) && s != t.root && Inherited(t, s, div, maxDepth) == RealCellValue(t, g, i, div, maxDepth)
  {
    assert Links(t, g, i, s);
    assert IndexIn(t, s) == i;
  }

  /** In a tree of whole numbers a cell's value is what it holds itself and its share. */
  lemma CellValueWhole(t: Tree, g: nat, i: nat, m: real, div: DivFunc, maxDepth: int)
    requires Structure(t, maxDepth) && IsGrid(t, g) && i < K && Whole(t) && HasOwn(t, g)
    requires Inherited(t, g, div, maxDepth) == Some(m)
    ensures RealCellValue(t, g, i, div, maxDepth)
            == Some(MotherOf(t, t.grids[g].cells[i])
                    + Share(div(t, g, m), m, Part(t, t.grids[g].cells[i]), t.grids[g].total - t.grids[g].mother))
  {
    var c := t.grids[g].cells[i];
    assert WholeGrid(t.grids[g]) && WholeCell(c);
    if c.Link? {
      assert Links(t, g, i, c.grid);
      assert WholeGrid(t.grids[c.grid]);
    }
    TruncOfInteger(MotherOf(t, c));
    TruncOfInteger(TotalOf(t, c));
  }

  // ---------------------------------------------------------------- how the inherited part is divided

  /** x is m / 2 for lambda 0, and the part-th part of m out of the whole for lambda 1. */
  ghost predicate OnLine(x: real, m: real, part: real, whole: real, lambda: real)
  {
    (x - m / 2.0) * whole == lambda * (m * part - m / 2.0 * whole)
  }

  /** What cell i of grid g shows beyond what it holds itself, of the m observations that the grid
      inherited: for lambda 0 half of them, for lambda 1 as large a part of them as the cell has of
      what was counted in the grid's two cells, and on the straight line between for others. */
  ghost predicate Divided(t: Tree, g: nat, i: nat, m: real, lambda: real, value: real)
    requires IsGrid(t, g) && |t.grids[g].cells| == K && i < K
  {
    var part, counted := Part(t, t.grids[g].cells[i]), Part(t, t.grids[g].cells[0]) + Part(t, t.grids[g].cells[1]);
    OnLine(value - MotherOf(t, t.grids[g].cells[i]), m, part, counted, lambda)
  }

  lemma ShareOnLine(lambda: real, m: real, part: real, whole: real)
    requires whole != 0.0
    ensures OnLine(Share(lambda, m, part, whole), m, part, whole, lambda)
  {
    var h, q := m / 2.0, m * part / whole;
    assert q * whole == m * part;
    assert Share(lambda, m, part, whole) - h == lambda * (q - h) by {
      assert (1.0 - lambda) * h == h - lambda * h;
      assert lambda * (q - h) == lambda * q - lambda * h;
    }
    Reassociate(lambda, q - h, whole);
    assert (q - h) * whole == q * whole - h * whole;
  }

  lemma Reassociate(a: real, b: real, c: real)
    ensures a * b * c == a * (b * c)
  {
  }

  /** The values of a grid's cells divide what the grid inherited in that way, at every level. */
  lemma CellsDivide(t: Tree, g: nat, i: nat, m: real, div: DivFunc, maxDepth: int)
    requires Structure(t, maxDepth) && IsGrid(t, g) && i < K && TotalsOk(t) && Whole(t) && HasOwn(t, g)
    requires Inherited(t, g, div, maxDepth) == Some(m)
    ensures var v := RealCellValue(t, g, i, div, maxDepth); v.Some? && Divided(t, g, i, m, div(t, g, m), v.value)
  {
    NoGap(t, g, maxDepth);
    CellValueWhole(t, g, i, m, div, maxDepth);
    ShareOnLine(div(t, g, m), m, Part(t, t.grids[g].cells[i]), t.grids[g].total - t.grids[g].mother);
  }

  /** The value of a cell, if it is a number, divides what its grid inherited. */
  ghost predicate ShowsShare(t: Tree, l: Leaf, value: real, div: DivFunc, maxDepth: int)
    requires Structure(t, maxDepth)
  {
    IsGrid(t, l.grid) && l.cell < K &&
    match Inherited(t, l.grid, div, maxDepth)
    case None => false
    case Some(m) => Divided(t, l.grid, l.cell, m, div(t, l.grid, m), value)
  }

  lemma ValueShowsShare(t: Tree, l: Leaf, div: DivFunc, maxDepth: int)
    requires Structure(t, maxDepth) && TotalsOk(t) && Whole(t) && ValueAt(t, l, div, maxDepth).Some?
    ensures ShowsShare(t, l, ValueAt(t, l, div, maxDepth).value, div, maxDepth)
  {
    var m := Inherited(t, l.grid, div, maxDepth);
    assert RealCellValue(t, l.grid, l.cell, div, maxDepth).Some?;
    CellsDivide(t, l.grid, l.cell, m.value, div, maxDepth);
  }

  /** With lambda 0, as by default, both cells of a grid get half of what it inherited. */
  lemma EvenDivision(t: Tree, g: nat, i: nat, m: real, value: real)
    requires IsGrid(t, g) && |t.grids[g].cells| == K && i < K && Divided(t, g, i, m, 0.0, value)
    requires Part(t, t.grids[g].cells[0]) + Part(t, t.grids[g].cells[1]) != 0.0
    ensures value == MotherOf(t, t.grids[g].cells[i]) + m / 2.0
  {
    var counted := Part(t, t.grids[g].cells[0]) + Part(t, t.grids[g].cells[1]);
    SameQuotient(value - MotherOf(t, t.grids[g].cells[i]) - m / 2.0, 0.0, counted);
  }

  /** With lambda 1 what the cells get is to each other as what was counted in them. */
  lemma ProportionalDivision(t: Tree, g: nat, m: real, value0: real, value1: real)
    requires IsGrid(t, g) && |t.grids[g].cells| == K
    requires Divided(t, g, 0, m, 1.0, value0) && Divided(t, g, 1, m, 1.0, value1)
    requires Part(t, t.grids[g].cells[0]) + Part(t, t.grids[g].cells[1]) != 0.0
    ensures var c0, c1 := t.grids[g].cells[0], t.grids[g].cells[1];
            (value0 - MotherOf(t, c0)) * Part(t, c1) == (value1 - MotherOf(t, c1)) * Part(t, c0)
  {
    var c0, c1 := t.grids[g].cells[0], t.grids[g].cells[1];
    InProportion(value0 - MotherOf(t, c0), value1 - MotherOf(t, c1), m, Part(t, c0), Part(t, c1));
  }

  lemma InProportion(x: real, y: real, m: real, a: real, b: real)
    requires a + b != 0.0
    requires (x - m / 2.0) * (a + b) == 1.0 * (m * a - m / 2.0 * (a + b))
    requires (y - m / 2.0) * (a + b) == 1.0 * (m * b - m / 2.0 * (a + b))
    ensures x * b == y * a
  {
    var h, s := m / 2.0, a + b;
    assert x * s == m * a by { assert (x - h) * s == x * s - h * s; }
    assert y * s == m * b by { assert (y - h) * s == y * s - h * s; }
    Reassociate(x, b, s);
    Reassociate(y, a, s);
    assert x * b * s == x * s * b && y * a * s == y * s * a;
    SameQuotient(x * b, y * a, s);
  }

  lemma NoGap(t: Tree, g: nat, maxDepth: int)
    requires Structure(t, maxDepth) && IsGrid(t, g) && TotalsOk(t)
    ensures t.grids[g].total - t.grids[g].mother == Part(t, t.grids[g].cells[0]) + Part(t, t.grids[g].cells[1])
  {
    assert Gap(t, g) == 0.0;
  }

  /** Together the two cells of a grid hand on all that the grid inherited. */
  lemma CellsHandOnAll(t: Tree, g: nat, m: real, div: DivFunc, maxDepth: int)
    requires Structure(t, maxDepth) && IsGrid(t, g) && TotalsOk(t) && Whole(t) && HasOwn(t, g)
    requires Inherited(t, g, div, maxDepth) == Some(m)
    ensures var v0, v1 := RealCellValue(t, g, 0, div, maxDepth), RealCellValue(t, g, 1, div, maxDepth);
            && v0.Some? && v1.Some?
            && v0.value - MotherOf(t, t.grids[g].cells[0]) + (v1.value - MotherOf(t, t.grids[g].cells[1])) == m
  {
    NoGap(t, g, maxDepth);
    var whole := t.grids[g].total - t.grids[g].mother;
    var a, b := Part(t, t.grids[g].cells[0]), Part(t, t.grids[g].cells[1]);
    SharesAddUp(div(t, g, m), m, a, b, whole);
    CellValueWhole(t, g, 0, m, div, maxDepth);
    CellValueWhole(t, g, 1, m, div, maxDepth);
  }

  /** A grid's cells hand on what it inherited, by any function for the value of a cell. */
  ghost predicate HandsOn(t: Tree, g: nat, m: real, value: Leaf -> Option<real>)
    requires IsGrid(t, g) && |t.grids[g].cells| == K
  {
    var v0, v1 := value(Leaf(g, 0)), value(Leaf(g, 1));
    && v0.Some? && v1.Some?
    && v0.value - MotherOf(t, t.grids[g].cells[0]) + (v1.value - MotherOf(t, t.grids[g].cells[1])) == m
  }

  ghost predicate AllHandOn(t: Tree, maxDepth: int, inherited: nat -> real, value: Leaf -> Option<real>)
    requires Structure(t, maxDepth)
  {
    && (forall g: nat :: IsGrid(t, g) ==> HandsOn(t, g, inherited(g), value))
    && (forall g: nat, i: nat, s: nat :: IsGrid(t, g) && Links(t, g, i, s) ==> value(Leaf(g, i)) == Some(inherited(s)))
  }

  /** The cells in and below a grid add up to what the grid counted and inherited. */
  lemma {:induction false} GridSum(t: Tree, g: nat, inherited: nat -> real, value: Leaf -> Option<real>, maxDepth: int)
    requires Structure(t, maxDepth) && IsGrid(t, g) && TotalsOk(t) && AllHandOn(t, maxDepth, inherited, value)
    ensures SumOf(LeavesFrom(t, g, 0, maxDepth), value) == Some(inherited(g) + t.grids[g].total - t.grids[g].mother)
    decreases maxDepth - t.grids[g].reldepth, 1
  {
    NoGap(t, g, maxDepth);
    assert HandsOn(t, g, inherited(g), value);
    CellSum(t, g, 0, inherited, value, maxDepth);
    CellSum(t, g, 1, inherited, value, maxDepth);
    LeavesOfGrid(t, g, maxDepth);
    SumOfBoth(LeavesOfCell(t, g, 0, maxDepth), LeavesOfCell(t, g, 1, maxDepth), value);
  }

  lemma {:induction false} CellSum(t: Tree, g: nat, i: nat, inherited: nat -> real, value: Leaf -> Option<real>, maxDepth: int)
    requires Structure(t, maxDepth) && IsGrid(t, g) && i < K && TotalsOk(t) && AllHandOn(t, maxDepth, inherited, value)
    requires value(Leaf(g, i)).Some?
    ensures SumOf(LeavesOfCell(t, g, i, maxDepth), value)
            == Some(value(Leaf(g, i)).value - MotherOf(t, t.grids[g].cells[i]) + Part(t, t.grids[g].cells[i]))
    decreases maxDepth - t.grids[g].reldepth, 0
  {
    match t.grids[g].cells[i]
    case Value(_) => SumOfOne(Leaf(g, i), value);
    case Link(s) =>
      assert Links(t, g, i, s);
      GridSum(t, s, inherited, value, maxDepth);
  }

  function InheritedOr0(t: Tree, g: nat, div: DivFunc, ghost maxDepth: int): real
    requires Structure(t, maxDepth)
  {
    if IsGrid(t, g) && Inherited(t, g, div, maxDepth).Some? then Inherited(t, g, div, maxDepth).value else 0.0
  }

  /** In a populated tree every grid has a number to inherit. */
  lemma {:induction false} InheritsNumber(t: Tree, g: nat, div: DivFunc, maxDepth: int)
    requires Structure(t, maxDepth) && IsGrid(t, g) && Populated(t)
    ensures Inherited(t, g, div, maxDepth).Some?
    decreases t.grids[g].reldepth - t.grids[t.root].reldepth
  {
    if t.grids[g].parent != 0 {
      var p := t.grids[g].parent;
      assert HasParent(t, g) && Links(t, p, IndexIn(t, g), g) && HasOwn(t, p);
      InheritsNumber(t, p, div, maxDepth);
    }
  }

  ghost function InheritedFunc(t: Tree, div: DivFunc, maxDepth: int): nat -> real
    requires Structure(t, maxDepth)
  {
    (g: nat) => InheritedOr0(t, g, div, maxDepth)
  }

  lemma GridHandsOn(t: Tree, g: nat, div: DivFunc, maxDepth: int)
    requires Structure(t, maxDepth) && TotalsOk(t) && Whole(t) && Populated(t) && IsGrid(t, g)
    ensures HandsOn(t, g, InheritedFunc(t, div, maxDepth)(g), ValueFunc(t, div, maxDepth))
  {
    assert HasOwn(t, g);
    InheritsNumber(t, g, div, maxDepth);
    CellsHandOnAll(t, g, InheritedOr0(t, g, div, maxDepth), div, maxDepth);
  }

  lemma SubgridTakesOver(t: Tree, g: nat, i: nat, s: nat, div: DivFunc, maxDepth: int)
    requires Structure(t, maxDepth) && Populated(t) && IsGrid(t, g) && Links(t, g, i, s)
    ensures ValueFunc(t, div, maxDepth)(Leaf(g, i)) == Some(InheritedFunc(t, div, maxDepth)(s))
  {
    InheritedOfSubgrid(t, g, i, s, div, maxDepth);
    InheritsNumber(t, s, div, maxDepth);
  }

  lemma ValuesHandOn(t: Tree, div: DivFunc, maxDepth: int)
    requires Structure(t, maxDepth) && TotalsOk(t) && Whole(t) && Populated(t)
    ensures AllHandOn(t, maxDepth, InheritedFunc(t, div, maxDepth), ValueFunc(t, div, maxDepth))
  {
    var inherited, value := InheritedFunc(t, div, maxDepth), ValueFunc(t, div, maxDepth);
    forall g: nat | IsGrid(t, g)
      ensures HandsOn(t, g, inherited(g), value)
    {
      GridHandsOn(t, g, div, maxDepth);
    }
    forall g: nat, i: nat, s: nat | IsGrid(t, g) && Links(t, g, i, s)
      ensures value(Leaf(g, i)) == Some(inherited(s))
    {
      SubgridTakesOver(t, g, i, s, div, maxDepth);
    }
  }

  /** Below a grid that counted nothing, or has no number to inherit, no cell value is a number. */
  lemma {:induction false} NothingBelow(t: Tree, g: nat, div: DivFunc, maxDepth: int)
    requires Structure(t, maxDepth) && IsGrid(t, g)
    requires !HasOwn(t, g) || Inherited(t, g, div, maxDepth) == None
    ensures ValueSum(t, LeavesFrom(t, g, 0, maxDepth), div, maxDepth) == None
    decreases maxDepth - t.grids[g].reldepth
  {
    assert RealCellValue(t, g, 0, div, maxDepth) == None;
    SumOfGrid(t, g, div, maxDepth);
    match t.grids[g].cells[0]
    case Value(_) => SumOfLeaf(t, g, 0, div, maxDepth);
    case Link(s) =>
      assert Links(t, g, 0, s);
      InheritedOfSubgrid(t, g, 0, s, div, maxDepth);
      NothingBelow(t, s, div, maxDepth);
  }

  /** What is not a number below a grid spoils the sum of the whole tree. */
  lemma {:induction false} NothingAbove(t: Tree, g: nat, div: DivFunc, maxDepth: int)
    requires Structure(t, maxDepth) && IsGrid(t, g)
    requires ValueSum(t, LeavesFrom(t, g, 0, maxDepth), div, maxDepth) == None
    ensures ValueSum(t, LeavesFrom(t, t.root, 0, maxDepth), div, maxDepth) == None
    decreases t.grids[g].reldepth - t.grids[t.root].reldepth
  {
    if g != t.root {
      var p := t.grids[g].parent;
      assert HasParent(t, g) && Links(t, p, IndexIn(t, g), g);
      SumOfGrid(t, p, div, maxDepth);
      NothingAbove(t, p, div, maxDepth);
    }
  }

  /** The values of all cells add up to the root's total if and only if every grid has counted
      something since it was created, whatever the division criterion; otherwise there are cells
      whose value is not a number. */
  lemma CellValuesAddUp(t: Tree, div: DivFunc, maxDepth: int)
    requires Structure(t, maxDepth) && TotalsOk(t) && Whole(t) && t.grids[t.root].mother == 0.0
    ensures ValueSum(t, LeavesFrom(t, t.root, 0, maxDepth), div, maxDepth)
            == if Populated(t) then Some(t.grids[t.root].total) else None
  {
    if Populated(t) {
      ValuesHandOn(t, div, maxDepth);
      GridSum(t, t.root, InheritedFunc(t, div, maxDepth), ValueFunc(t, div, maxDepth), maxDepth);
    } else {
      var g: nat :| IsGrid(t, g) && !HasOwn(t, g);
      NothingBelow(t, g, div, maxDepth);
      NothingAbove(t, g, div, maxDepth);
    }
  }

  /** A weight of one half is counted as an observation, but the cell shows nothing of it: cell
      contents are cut to whole numbers. */
  lemma HalfIsCut(div: DivFunc)
    ensures var t := Tree([Grid(0, 0, 0.0, 0.0, []), Grid(0, 0, 1.0, 0.0, [Value(0.5), Value(0.0)])], 1);
            && Structure(t, 0) && Populated(t)
            && ValueSum(t, LeavesFrom(t, 1, 0, 0), div, 0) == Some(0.0)
  {
    var t := Tree([Grid(0, 0, 0.0, 0.0, []), Grid(0, 0, 1.0, 0.0, [Value(0.5), Value(0.0)])], 1);
    assert forall g: nat :: IsGrid(t, g) ==> g == 1;
    assert HasOwn(t, 1);
    SumOfGrid(t, 1, div, 0);
    SumOfLeaf(t, 1, 0, div, 0);
    SumOfLeaf(t, 1, 1, div, 0);
    assert (0.5).Floor == 0;
  }

  // ---------------------------------------------------------------- what the changes of the tree keep

  /** No grid has counted less than it inherited, and the root inherited nothing. */
  ghost predicate Grown(t: Tree)
    requires IsGrid(t, t.root)
  {
    t.grids[t.root].mother == 0.0 && forall g: nat :: IsGrid(t, g) ==> t.grids[g].total >= t.grids[g].mother
  }

  /** Every grid below the root has counted something since it was created. */
  ghost predicate SubgridsPopulated(t: Tree)
  {
    forall g: nat :: IsGrid(t, g) && g != t.root ==> HasOwn(t, g)
  }

  /** Whole numbers stay whole and populated subgrids populated. */
  ghost predicate Keeps(t: Tree, u: Tree)
  {
    (Whole(t) ==> Whole(u)) && (SubgridsPopulated(t) ==> SubgridsPopulated(u))
  }

  lemma WholePlusOne(x: real)
    requires IsInteger(x)
    ensures IsInteger(x + 1.0)
  {
    assert x + 1.0 == (x.Floor + 1) as real;
  }

  lemma CountingKeeps(t: Tree, g: nat)
    requires IsGrid(t, t.root) && IsGrid(t, g) && Grown(t)
    ensures var u := WithTotal(t, g, t.grids[g].total + 1.0);
            Grown(u) && Keeps(t, u) && HasOwn(u, g)
  {
    var u := WithTotal(t, g, t.grids[g].total + 1.0);
    forall h: nat | IsGrid(u, h) && Whole(t)
      ensures WholeGrid(u.grids[h])
    {
      assert WholeGrid(t.grids[h]);
      WholePlusOne(t.grids[h].total);
    }
    assert forall h: nat :: IsGrid(u, h) && h != g ==> (HasOwn(u, h) <==> HasOwn(t, h));
  }

  lemma AddingKeeps(t: Tree, g: nat, i: nat, w: real)
    requires IsGrid(t, t.root) && IsGrid(t, g) && i < |t.grids[g].cells| && t.grids[g].cells[i].Value? && Grown(t)
    ensures var u := WithCell(t, g, i, Value(t.grids[g].cells[i].v + w));
            && Grown(u) && (SubgridsPopulated(t) ==> SubgridsPopulated(u))
            && (Whole(t) && w == 1.0 ==> Whole(u))
  {
    var u := WithCell(t, g, i, Value(t.grids[g].cells[i].v + w));
    forall h: nat | IsGrid(u, h) && Whole(t) && w == 1.0
      ensures WholeGrid(u.grids[h])
    {
      assert WholeGrid(t.grids[h]);
      if h == g {
        assert WholeCell(t.grids[g].cells[i]);
        WholePlusOne(t.grids[g].cells[i].v);
      }
    }
    assert forall h: nat :: IsGrid(u, h) ==> (HasOwn(u, h) <==> HasOwn(t, h));
  }

  /** A split leaves one subgrid, the new one, that has counted nothing yet. */
  lemma SplittingKeeps(t: Tree, g: nat, i: nat)
    requires IsGrid(t, t.root) && IsGrid(t, g) && i < |t.grids[g].cells| && t.grids[g].cells[i].Value? && Grown(t)
    ensures var u := Split(t, g, i);
            && Grown(u) && (Whole(t) ==> Whole(u)) && !HasOwn(u, |t.grids|)
            && (SubgridsPopulated(t) ==> forall h: nat :: IsGrid(u, h) && h != u.root && h != |t.grids| ==> HasOwn(u, h))
  {
    var u := Split(t, g, i);
    assert Whole(t) ==> WholeGrid(t.grids[g]) && WholeCell(t.grids[g].cells[i]);
    forall h: nat | IsGrid(u, h) && Whole(t)
      ensures WholeGrid(u.grids[h])
    {
      assert h < |t.grids| ==> WholeGrid(t.grids[h]);
    }
    assert forall h: nat :: IsGrid(t, h) ==> (HasOwn(u, h) <==> HasOwn(t, h));
  }

  /** So with the observation counted in the new subgrid all subgrids are populated again. */
  lemma SplitAndCountKeeps(t: Tree, g: nat, i: nat)
    requires IsGrid(t, t.root) && IsGrid(t, g) && i < |t.grids[g].cells| && t.grids[g].cells[i].Value? && Grown(t)
    ensures var u, n := Split(t, g, i), |t.grids|;
            Keeps(t, WithTotal(u, n, u.grids[n].total + 1.0))
  {
    var u, n := Split(t, g, i), |t.grids|;
    SplittingKeeps(t, g, i);
    CountingKeeps(u, n);
    var v := WithTotal(u, n, u.grids[n].total + 1.0);
    assert forall h: nat :: IsGrid(v, h) && h != n ==> (HasOwn(v, h) <==> HasOwn(u, h));
  }

  /** A new root turns the old one into a subgrid, which must not be empty. */
  lemma NewRootKeeps(t: Tree, i: nat)
    requires IsGrid(t, t.root) && i < K && Grown(t)
    ensures var u := NewRoot(t, i);
            && Grown(u) && (Whole(t) ==> Whole(u))
            && (SubgridsPopulated(u) <==> SubgridsPopulated(t) && t.grids[t.root].total != 0.0)
  {
    var u := NewRoot(t, i);
    forall h: nat | IsGrid(u, h) && Whole(t)
      ensures WholeGrid(u.grids[h])
    {
      assert h < |t.grids| ==> WholeGrid(t.grids[h]);
      assert WholeGrid(t.grids[t.root]);
    }
    assert forall h: nat :: IsGrid(t, h) ==> (HasOwn(u, h) <==> HasOwn(t, h));
  }
}
