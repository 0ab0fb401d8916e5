/** The data model shared by every grid primitive: a dense rectangular grid of
    integer colours, cell positions, and the notion of a foreground cell
    (a cell whose colour differs from a chosen background colour). */
module Grids {

  /** A grid is a sequence of rows; each row is a sequence of colours. */
  type Grid = seq<seq<int>>

  /** A cell position: row index and column index. Coordinates are plain
      integers so that the neighbours of an edge cell can be named too. */
  datatype Pos = Pos(row: int, col: int)

  /** Well-formed grids: at least one row, at least one column, and every row
      as long as the first. */
  predicate IsGrid(g: Grid) {
    && |g| >= 1
    && |g[0]| >= 1
    && forall i :: 0 <= i < |g| ==> |g[i]| == |g[0]|
  }

  function Rows(g: Grid): nat
    requires IsGrid(g)
  {
    |g|
  }

  function Cols(g: Grid): nat
    requires IsGrid(g)
  {
    |g[0]|
  }

  /** Two grids with the same number of rows and the same row lengths. */
  predicate SameShape(a: Grid, b: Grid) {
    && |a| == |b|
    && forall i :: 0 <= i < |a| ==> |a[i]| == |b[i]|
  }

  predicate InBounds(g: Grid, p: Pos) {
    0 <= p.row < |g| && 0 <= p.col < |g[p.row]|
  }

  /** Is `p` a cell of `g` whose colour is not the background colour? */
  predicate IsForeground(g: Grid, bg: int, p: Pos) {
    InBounds(g, p) && g[p.row][p.col] != bg
  }

  /** Does `g` have at least one cell different from `bg`? */
  predicate HasContent(g: Grid, bg: int) {
    exists i, j :: 0 <= i < |g| && 0 <= j < |g[i]| && g[i][j] != bg
  }

  /** Every position of a well-formed grid. */
  function Cells(g: Grid): (cs: set<Pos>)
    requires IsGrid(g)
    ensures forall p :: p in cs <==> InBounds(g, p)
  {
    set i, j | 0 <= i < |g| && 0 <= j < |g[0]| :: Pos(i, j)
  }

  /** Row-major ("raster") order: top to bottom, then left to right. */
  predicate RowMajorLt(p: Pos, q: Pos) {
    p.row < q.row || (p.row == q.row && p.col < q.col)
  }

  predicate RowMajorLe(p: Pos, q: Pos) {
    p == q || RowMajorLt(p, q)
  }

  /** Grids of the same shape that agree on every cell are equal. */
  lemma GridExt(a: Grid, b: Grid)
    requires SameShape(a, b)
    requires forall i, j :: 0 <= i < |a| && 0 <= j < |a[i]| ==> a[i][j] == b[i][j]
    ensures a == b
  {
    forall i | 0 <= i < |a|
      ensures a[i] == b[i]
    {
      assert |a[i]| == |b[i]|;
    }
  }

  /** A sequence written back to front. */
  function Reverse<T>(s: seq<T>): (r: seq<T>)
    ensures |r| == |s|
    ensures forall i :: 0 <= i < |s| ==> r[i] == s[|s| - 1 - i]
  {
    if |s| == 0 then [] else Reverse(s[1..]) + [s[0]]
  }

  /** Reversal is its own inverse. */
  lemma ReverseReverse<T>(s: seq<T>)
    ensures Reverse(Reverse(s)) == s
  {
  }
}
