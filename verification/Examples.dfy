/** The worked examples that accompany the grid primitives, stated as
    lemmas about concrete grids. */
module Examples {
  import opened Grids
  import opened Connectivity
  import opened GridPrimitives

  /** Rotating [[1, 2], [3, 4]] clockwise gives [[3, 1], [4, 2]]. */
  lemma RotateExample()
    ensures Rotate90([[1, 2], [3, 4]]) == [[3, 1], [4, 2]]
  {
    var g: Grid := [[1, 2], [3, 4]];
    var r := Rotate90(g);
    assert r[0][0] == 3 && r[0][1] == 1 && r[1][0] == 4 && r[1][1] == 2;
    GridExt(r, [[3, 1], [4, 2]]);
  }

  /** Padding [[5]] with colour 9 gives a 3 x 3 grid of 9s around the 5. */
  lemma FillBordersExample()
    ensures FillBorders([[5]], 9) == [[9, 9, 9], [9, 5, 9], [9, 9, 9]]
  {
    var r := FillBorders([[5]], 9);
    var e: Grid := [[9, 9, 9], [9, 5, 9], [9, 9, 9]];
    forall i, j | 0 <= i < 3 && 0 <= j < 3
      ensures r[i][j] == e[i][j]
    {
      if i == 1 && j == 1 {
        assert r[0 + 1][0 + 1] == 5;
      } else {
        assert OnRing(3, 3, i, j);
      }
    }
    GridExt(r, e);
  }

  /** Cropping [[1, 0], [0, 0]] to its content gives [[1]]. */
  lemma CropExample()
    ensures CropToContent([[1, 0], [0, 0]], 0) == [[1]]
  {
    var g: Grid := [[1, 0], [0, 0]];
    assert g[0][0] != 0;
    var b := Box(0, 0, 0, 0);
    assert RowHasContent(g, 0, 0) && ColHasContent(g, 0, 0);
    assert IsTightBox(g, 0, b);
    TightBoxUnique(g, 0, BoundingBox(g, 0), b);
    var r := CropToContent(g, 0);
    GridExt(r, [[1]]);
  }

  /** An all-background grid crops to the single background cell. */
  lemma CropAllBackgroundExample()
    ensures CropToContent([[7, 7, 7], [7, 7, 7]], 7) == [[7]]
  {
    var g: Grid := [[7, 7, 7], [7, 7, 7]];
    forall i, j | 0 <= i < |g| && 0 <= j < |g[i]|
      ensures g[i][j] == 7
    {
      assert g[i] == [7, 7, 7];
    }
  }

  /** A grid with an L-shaped object of three cells, and two single cells. */
  const LShape: Grid := [[5, 0, 2], [5, 5, 0], [0, 0, 2]]

  /** The foreground of `LShape` with background 0 is the L and two single
      cells. */
  lemma LShapeForeground(n: Pos)
    requires IsForeground(LShape, 0, n)
    ensures n in {Pos(0, 0), Pos(1, 0), Pos(1, 1), Pos(0, 2), Pos(2, 2)}
  {
    var g := LShape;
    assert g[0] == [5, 0, 2] && g[1] == [5, 5, 0] && g[2] == [0, 0, 2];
  }

  /** The L-shaped object of `LShape`. */
  const LObject: set<Pos> := {Pos(0, 0), Pos(1, 0), Pos(1, 1)}

  lemma LShapeIsGrid()
    ensures IsGrid(LShape)
  {
  }

  lemma LObjectSize()
    ensures |LObject| == 3
  {
  }

  /** The L and the two single cells of `LShape` are each closed under
      foreground adjacency. */
  lemma LShapeClosed(S: set<Pos>)
    requires S == LObject || S == {Pos(0, 2)} || S == {Pos(2, 2)}
    ensures ClosedUnderAdjacency(LShape, 0, S)
  {
    forall q, n | q in S && Adjacent(q, n) && IsForeground(LShape, 0, n)
      ensures n in S
    {
      LShapeForeground(n);
    }
  }

  /** Every cell of the L has the L as its component. */
  lemma LObjectComponent(p: Pos)
    requires p in LObject
    ensures ComponentOf(LShape, 0, p) == LObject
  {
    var g := LShape;
    ReachableRefl(g, 0, Pos(0, 0));
    ReachableStep(g, 0, Pos(0, 0), Pos(0, 0), Pos(1, 0));
    ReachableStep(g, 0, Pos(0, 0), Pos(1, 0), Pos(1, 1));
    LShapeClosed(LObject);
    ComponentIsClosedConnectedSet(g, 0, Pos(0, 0), LObject);
    SameComponent(g, 0, Pos(0, 0), p);
  }

  /** Each single cell of `LShape` is a component on its own. */
  lemma SingleCellComponent(p: Pos)
    requires p == Pos(0, 2) || p == Pos(2, 2)
    ensures ComponentOf(LShape, 0, p) == {p}
  {
    ReachableRefl(LShape, 0, p);
    LShapeClosed({p});
    ComponentIsClosedConnectedSet(LShape, 0, p, {p});
  }

  /** The selected object of `LShape` is the L. */
  lemma LShapeSelection(s: Pos)
    requires IsSelectedObject(LShape, 0, s)
    ensures ComponentOf(LShape, 0, s) == LObject
  {
    LShapeIsGrid();
    LShapeForeground(s);
    LObjectComponent(Pos(0, 0));
    LObjectSize();
    assert |ComponentOf(LShape, 0, Pos(0, 0))| <= |ComponentOf(LShape, 0, s)|;
    if s in LObject {
      LObjectComponent(s);
    } else {
      SingleCellComponent(s);
      assert false;
    }
  }

  /** A result that keeps the selected object of `LShape`, as the contract of
      `FindLargestObject` demands, keeps the L and clears the two single cells. */
  lemma LShapeResult(r: Grid, s: Pos)
    requires IsSelectedObject(LShape, 0, s) && KeepsOnly(LShape, 0, r, ComponentOf(LShape, 0, s))
    ensures r == [[5, 0, 0], [5, 5, 0], [0, 0, 0]]
  {
    LShapeSelection(s);
    KeptLObject(r);
  }

  /** The grid that keeps only the L of `LShape`. */
  lemma KeptLObject(r: Grid)
    requires KeepsOnly(LShape, 0, r, LObject)
    ensures r == [[5, 0, 0], [5, 5, 0], [0, 0, 0]]
  {
    var g := LShape;
    var e: Grid := [[5, 0, 0], [5, 5, 0], [0, 0, 0]];
    forall i, j | 0 <= i < |r| && 0 <= j < |r[i]|
      ensures r[i][j] == e[i][j]
    {
      assert r[i][j] == (if Pos(i, j) in LObject then g[i][j] else 0);
    }
    GridExt(r, e);
  }

  /** Keeping the largest object of `LShape`, with the default background 0,
      keeps the L of three cells and clears the two single cells. */
  method LShapeExample() returns (r: Grid)
    ensures r == [[5, 0, 0], [5, 5, 0], [0, 0, 0]]
  {
    assert LShape[0][0] != 0;
    r := FindLargestObject(LShape);
    ghost var s :| IsSelectedObject(LShape, 0, s) && KeepsOnly(LShape, 0, r, ComponentOf(LShape, 0, s));
    LShapeResult(r, s);
  }

  /** A grid with two objects of two cells each, in columns 0 and 2. */
  const TwoBars: Grid := [[3, 0, 4], [3, 0, 4]]

  const LeftBar: set<Pos> := {Pos(0, 0), Pos(1, 0)}
  const RightBar: set<Pos> := {Pos(0, 2), Pos(1, 2)}

  lemma TwoBarsIsGrid()
    ensures IsGrid(TwoBars)
  {
  }

  lemma BarSizes()
    ensures |LeftBar| == 2 && |RightBar| == 2
  {
  }

  /** The foreground of `TwoBars` with background 0 is the two bars. */
  lemma TwoBarsForeground(n: Pos)
    requires IsForeground(TwoBars, 0, n)
    ensures n in LeftBar || n in RightBar
  {
    var g := TwoBars;
    assert g[0] == [3, 0, 4] && g[1] == [3, 0, 4];
  }

  /** Each bar is closed under foreground adjacency. */
  lemma BarClosed(S: set<Pos>)
    requires S == LeftBar || S == RightBar
    ensures ClosedUnderAdjacency(TwoBars, 0, S)
  {
    forall q, n | q in S && Adjacent(q, n) && IsForeground(TwoBars, 0, n)
      ensures n in S
    {
      TwoBarsForeground(n);
    }
  }

  /** Every cell of a bar has that bar as its component. */
  lemma BarComponent(S: set<Pos>, p: Pos)
    requires S == LeftBar || S == RightBar
    requires p in S
    ensures ComponentOf(TwoBars, 0, p) == S
  {
    var g := TwoBars;
    var top := if S == LeftBar then Pos(0, 0) else Pos(0, 2);
    var bottom := Pos(1, top.col);
    ReachableRefl(g, 0, top);
    ReachableStep(g, 0, top, top, bottom);
    BarClosed(S);
    ComponentIsClosedConnectedSet(g, 0, top, S);
    SameComponent(g, 0, top, p);
  }

  /** The two bars have equal area, so the one whose first cell comes first
      in row-major order, the left bar, is selected. */
  lemma TwoBarsSelection(s: Pos)
    requires IsSelectedObject(TwoBars, 0, s)
    ensures ComponentOf(TwoBars, 0, s) == LeftBar
  {
    TwoBarsIsGrid();
    TwoBarsForeground(s);
    BarSizes();
    BarComponent(LeftBar, Pos(0, 0));
    if s in LeftBar {
      BarComponent(LeftBar, s);
    } else {
      BarComponent(RightBar, s);
      assert false;
    }
  }

  /** The grid that keeps only the left bar of `TwoBars`. */
  lemma KeptLeftBar(r: Grid)
    requires KeepsOnly(TwoBars, 0, r, LeftBar)
    ensures r == [[3, 0, 0], [3, 0, 0]]
  {
    var g := TwoBars;
    var e: Grid := [[3, 0, 0], [3, 0, 0]];
    forall i, j | 0 <= i < |r| && 0 <= j < |r[i]|
      ensures r[i][j] == e[i][j]
    {
      assert r[i][j] == (if Pos(i, j) in LeftBar then g[i][j] else 0);
    }
    GridExt(r, e);
  }

  /** A result that keeps the selected object of `TwoBars`, as the contract of
      `FindLargestObject` demands, keeps the left bar and clears the right one. */
  lemma TwoBarsResult(r: Grid, s: Pos)
    requires IsSelectedObject(TwoBars, 0, s) && KeepsOnly(TwoBars, 0, r, ComponentOf(TwoBars, 0, s))
    ensures r == [[3, 0, 0], [3, 0, 0]]
  {
    TwoBarsSelection(s);
    KeptLeftBar(r);
  }

  /** On a tie between two largest objects, the first one in row-major
      order is kept. */
  method TwoBarsExample() returns (r: Grid)
    ensures r == [[3, 0, 0], [3, 0, 0]]
  {
    assert TwoBars[0][0] != 0;
    r := FindLargestObject(TwoBars);
    ghost var s :| IsSelectedObject(TwoBars, 0, s) && KeepsOnly(TwoBars, 0, r, ComponentOf(TwoBars, 0, s));
    TwoBarsResult(r, s);
  }
}
