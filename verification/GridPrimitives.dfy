/** The five grid primitives: clockwise rotation, top-to-bottom reflection,
    cropping to the bounding box of the content, keeping only the largest
    4-connected object, and padding with a one-cell border. Every operation
    is a pure function of its inputs and returns a new grid. */
module GridPrimitives {
  import opened Grids
  import opened Connectivity

  // ---------------------------------------------------------------------
  // Rotation and reflection
  // ---------------------------------------------------------------------

  /** Rows become columns: `t[j][i] == g[i][j]`. */
  function Transpose(g: Grid): (t: Grid)
    requires IsGrid(g)
    ensures |t| == Cols(g)
    ensures forall j :: 0 <= j < |t| ==> |t[j]| == Rows(g)
    ensures forall i, j :: 0 <= i < Rows(g) && 0 <= j < Cols(g) ==> t[j][i] == g[i][j]
  {
    seq(|g[0]|, j requires 0 <= j < |g[0]| => seq(|g|, i requires 0 <= i < |g| => g[i][j]))
  }

  /** Rotation by 90 degrees clockwise, computed as the transpose with every
      row reversed: an R x C grid becomes C x R and the left column, read
      bottom to top, becomes the top row. */
  function Rotate90(g: Grid): (r: Grid)
    requires IsGrid(g)
    ensures IsGrid(r)
    ensures Rows(r) == Cols(g) && Cols(r) == Rows(g)
    ensures forall i, j :: 0 <= i < Cols(g) && 0 <= j < Rows(g) ==> r[i][j] == g[Rows(g) - 1 - j][i]
  {
    var t := Transpose(g);
    seq(|t|, i requires 0 <= i < |t| => Reverse(t[i]))
  }

  /** Mirror along the horizontal axis: the top row becomes the bottom row. */
  function ReflectHorizontal(g: Grid): (r: Grid)
    requires IsGrid(g)
    ensures IsGrid(r) && SameShape(r, g)
    ensures forall i :: 0 <= i < Rows(g) ==> r[i] == g[Rows(g) - 1 - i]
  {
    Reverse(g)
  }

  /** Rotating twice turns the grid upside down and back to front. */
  lemma RotateTwice(g: Grid)
    requires IsGrid(g)
    ensures IsGrid(Rotate90(Rotate90(g))) && SameShape(Rotate90(Rotate90(g)), g)
    ensures forall i, j :: 0 <= i < Rows(g) && 0 <= j < Cols(g) ==>
      Rotate90(Rotate90(g))[i][j] == g[Rows(g) - 1 - i][Cols(g) - 1 - j]
  {
    var r1 := Rotate90(g);
    QuarterTurnTwice(g, r1, Rotate90(r1));
  }

  /** Two quarter turns, each stated by its index formula, make a half turn. */
  lemma QuarterTurnTwice(g: Grid, r1: Grid, r2: Grid)
    requires IsGrid(g) && IsGrid(r1) && IsGrid(r2)
    requires Rows(r1) == Cols(g) && Cols(r1) == Rows(g) && Rows(r2) == Cols(r1) && Cols(r2) == Rows(r1)
    requires forall i, j :: 0 <= i < Cols(g) && 0 <= j < Rows(g) ==> r1[i][j] == g[Rows(g) - 1 - j][i]
    requires forall i, j :: 0 <= i < Cols(r1) && 0 <= j < Rows(r1) ==> r2[i][j] == r1[Rows(r1) - 1 - j][i]
    ensures SameShape(r2, g)
    ensures forall i, j :: 0 <= i < Rows(g) && 0 <= j < Cols(g) ==> r2[i][j] == g[Rows(g) - 1 - i][Cols(g) - 1 - j]
  {
  }

  /** Four quarter turns are the identity. */
  lemma RotateFourTimes(g: Grid)
    requires IsGrid(g)
    ensures Rotate90(Rotate90(Rotate90(Rotate90(g)))) == g
  {
    var h := Rotate90(Rotate90(g));
    RotateTwice(g);
    RotateTwice(h);
    HalfTurnTwice(g, h, Rotate90(Rotate90(h)));
  }

  /** Two half turns, each stated by its index formula, give back the grid. */
  lemma HalfTurnTwice(g: Grid, h: Grid, k: Grid)
    requires IsGrid(g) && IsGrid(h) && SameShape(h, g) && SameShape(k, h)
    requires forall i, j :: 0 <= i < Rows(g) && 0 <= j < Cols(g) ==> h[i][j] == g[Rows(g) - 1 - i][Cols(g) - 1 - j]
    requires forall i, j :: 0 <= i < Rows(h) && 0 <= j < Cols(h) ==> k[i][j] == h[Rows(h) - 1 - i][Cols(h) - 1 - j]
    ensures k == g
  {
    forall i, j | 0 <= i < |k| && 0 <= j < |k[i]|
      ensures k[i][j] == g[i][j]
    {
      assert k[i][j] == h[Rows(g) - 1 - i][Cols(g) - 1 - j];
    }
    GridExt(k, g);
  }

  /** Reflection is an involution. */
  lemma ReflectTwice(g: Grid)
    requires IsGrid(g)
    ensures ReflectHorizontal(ReflectHorizontal(g)) == g
  {
    ReverseReverse(g);
  }

  /** A clockwise rotation is a top-to-bottom reflection followed by a
      transpose. */
  lemma RotateIsTransposedReflection(g: Grid)
    requires IsGrid(g)
    ensures Rotate90(g) == Transpose(ReflectHorizontal(g))
  {
    var f := ReflectHorizontal(g);
    TransposeOfFlip(g, Rotate90(g), f, Transpose(f));
  }

  /** Any grid with the clockwise-rotation index formula is the transpose of
      the top-to-bottom flip. */
  lemma TransposeOfFlip(g: Grid, a: Grid, f: Grid, b: Grid)
    requires IsGrid(g) && IsGrid(a) && Rows(a) == Cols(g) && Cols(a) == Rows(g)
    requires forall i, j :: 0 <= i < Cols(g) && 0 <= j < Rows(g) ==> a[i][j] == g[Rows(g) - 1 - j][i]
    requires IsGrid(f) && SameShape(f, g) && forall i :: 0 <= i < Rows(g) ==> f[i] == g[Rows(g) - 1 - i]
    requires |b| == Cols(f) && (forall j :: 0 <= j < |b| ==> |b[j]| == Rows(f))
    requires forall i, j :: 0 <= i < Rows(f) && 0 <= j < Cols(f) ==> b[j][i] == f[i][j]
    ensures a == b
  {
    forall i, j | 0 <= i < |a| && 0 <= j < |a[i]|
      ensures a[i][j] == b[i][j]
    {
      assert b[i][j] == f[j][i];
    }
    GridExt(a, b);
  }

  // ---------------------------------------------------------------------
  // Border fill
  // ---------------------------------------------------------------------

  /** Is (i, j) on the outermost ring of a grid with `rows` rows and `cols`
      columns? */
  predicate OnRing(rows: int, cols: int, i: int, j: int) {
    i == 0 || i == rows - 1 || j == 0 || j == cols - 1
  }

  /** `r` is `g` surrounded by a one-cell ring of colour `c`. */
  predicate IsPadding(r: Grid, g: Grid, c: int)
    requires IsGrid(g)
  {
    && IsGrid(r)
    && Rows(r) == Rows(g) + 2 && Cols(r) == Cols(g) + 2
    && (forall i, j :: 0 <= i < Rows(r) && 0 <= j < Cols(r) && OnRing(Rows(r), Cols(r), i, j) ==> r[i][j] == c)
    && (forall i, j :: 0 <= i < Rows(g) && 0 <= j < Cols(g) ==> r[i + 1][j + 1] == g[i][j])
  }

  /** No cell on the outermost ring of `g` has colour `c`. */
  predicate RingAvoids(g: Grid, c: int)
    requires IsGrid(g)
  {
    forall i, j :: 0 <= i < Rows(g) && 0 <= j < Cols(g) && OnRing(Rows(g), Cols(g), i, j) ==> g[i][j] != c
  }

  /** Pads the grid with a one-cell ring of `c`: an R x C grid becomes
      (R + 2) x (C + 2), the ring holds `c` and the interior is the input. */
  function FillBorders(g: Grid, c: int): (r: Grid)
    requires IsGrid(g)
    ensures IsPadding(r, g, c)
  {
    var edge := seq(|g[0]| + 2, _ => c);
    [edge] + seq(|g|, i requires 0 <= i < |g| => [c] + g[i] + [c]) + [edge]
  }

  // ---------------------------------------------------------------------
  // Crop to content
  // ---------------------------------------------------------------------

  /** An inclusive rectangle of rows `top..bottom` and columns `left..right`. */
  datatype Box = Box(top: int, bottom: int, left: int, right: int)

  predicate RowHasContent(g: Grid, bg: int, i: int) {
    0 <= i < |g| && exists j :: 0 <= j < |g[i]| && g[i][j] != bg
  }

  predicate ColHasContent(g: Grid, bg: int, j: int) {
    exists i :: 0 <= i < |g| && 0 <= j < |g[i]| && g[i][j] != bg
  }

  /** `b` is the bounding box of the content of `g`: it lies inside the grid,
      holds every cell different from `bg`, and each of its four edges
      touches such a cell. */
  predicate IsTightBox(g: Grid, bg: int, b: Box)
    requires IsGrid(g)
  {
    && 0 <= b.top <= b.bottom < Rows(g)
    && 0 <= b.left <= b.right < Cols(g)
    && (forall i, j :: 0 <= i < |g| && 0 <= j < |g[i]| && g[i][j] != bg ==>
          b.top <= i <= b.bottom && b.left <= j <= b.right)
    && RowHasContent(g, bg, b.top) && RowHasContent(g, bg, b.bottom)
    && ColHasContent(g, bg, b.left) && ColHasContent(g, bg, b.right)
  }

  /** The box covering the whole grid. */
  function FullBox(g: Grid): Box
    requires IsGrid(g)
  {
    Box(0, |g| - 1, 0, |g[0]| - 1)
  }

  /** `w` is the part of `g` inside `b`, values unchanged. */
  predicate IsWindow(w: Grid, g: Grid, b: Box)
    requires IsGrid(g)
    requires 0 <= b.top <= b.bottom < Rows(g) && 0 <= b.left <= b.right < Cols(g)
  {
    && |w| == b.bottom - b.top + 1
    && (forall i :: 0 <= i < |w| ==> |w[i]| == b.right - b.left + 1)
    && (forall i, j :: 0 <= i < |w| && 0 <= j < |w[i]| ==> w[i][j] == g[b.top + i][b.left + j])
  }

  /** The least index in `i..n` satisfying `p`, or `n` if there is none. */
  function FirstFrom(n: nat, p: nat -> bool, i: nat): (r: nat)
    requires i <= n
    ensures i <= r <= n
    ensures r < n ==> p(r)
    ensures forall k: nat :: i <= k < r ==> !p(k)
    decreases n - i
  {
    if i == n then n else if p(i) then i else FirstFrom(n, p, i + 1)
  }

  /** The greatest index below `i` satisfying `p`, or -1 if there is none. */
  function LastBefore(p: nat -> bool, i: nat): (r: int)
    ensures -1 <= r < i
    ensures r >= 0 ==> p(r)
    ensures forall k: nat :: r < k < i ==> !p(k)
  {
    if i == 0 then -1 else if p(i - 1) then i - 1 else LastBefore(p, i - 1)
  }

  /** The least and greatest row and column indices of the cells different
      from `bg`. */
  function BoundingBox(g: Grid, bg: int): (b: Box)
    requires IsGrid(g) && HasContent(g, bg)
    ensures IsTightBox(g, bg, b)
  {
    var rowP := (i: nat) => RowHasContent(g, bg, i);
    var colP := (j: nat) => ColHasContent(g, bg, j);
    var b := Box(FirstFrom(|g|, rowP, 0), LastBefore(rowP, |g|), FirstFrom(|g[0]|, colP, 0), LastBefore(colP, |g[0]|));
    SearchBoundsAreTight(g, bg, b);
    b
  }

  /** The row and column searches of `BoundingBox` find a tight box. */
  lemma SearchBoundsAreTight(g: Grid, bg: int, b: Box)
    requires IsGrid(g) && HasContent(g, bg)
    requires var rowP := (i: nat) => RowHasContent(g, bg, i);
      var colP := (j: nat) => ColHasContent(g, bg, j);
      b == Box(FirstFrom(|g|, rowP, 0), LastBefore(rowP, |g|), FirstFrom(|g[0]|, colP, 0), LastBefore(colP, |g[0]|))
    ensures IsTightBox(g, bg, b)
  {
    var rowP := (i: nat) => RowHasContent(g, bg, i);
    var colP := (j: nat) => ColHasContent(g, bg, j);
    forall i, j | 0 <= i < |g| && 0 <= j < |g[i]| && g[i][j] != bg
      ensures b.top <= i <= b.bottom && b.left <= j <= b.right
    {
      assert rowP(i) && colP(j);
    }
    var i, j :| 0 <= i < |g| && 0 <= j < |g[i]| && g[i][j] != bg;
    assert rowP(i) && colP(j);
  }

  /** Two boxes that both bound the content tightly are the same box. */
  lemma TightBoxUnique(g: Grid, bg: int, b1: Box, b2: Box)
    requires IsGrid(g) && IsTightBox(g, bg, b1) && IsTightBox(g, bg, b2)
    ensures b1 == b2
  {
  }

  /** The cells of `g` inside `b`. */
  function Window(g: Grid, b: Box): (w: Grid)
    requires IsGrid(g)
    requires 0 <= b.top <= b.bottom < Rows(g) && 0 <= b.left <= b.right < Cols(g)
    ensures IsGrid(w) && IsWindow(w, g, b)
  {
    seq(b.bottom - b.top + 1, i requires 0 <= i < b.bottom - b.top + 1 => g[b.top + i][b.left..b.right + 1])
  }

  /** Crops to the bounding box of the cells different from `bg`; a grid with
      no such cell becomes the 1 x 1 grid `[[bg]]`. */
  function CropToContent(g: Grid, bg: int := 0): (r: Grid)
    requires IsGrid(g)
    ensures IsGrid(r)
    ensures !HasContent(g, bg) ==> r == [[bg]]
    ensures HasContent(g, bg) ==> IsTightBox(g, bg, BoundingBox(g, bg)) && IsWindow(r, g, BoundingBox(g, bg))
  {
    if !HasContent(g, bg) then [[bg]] else Window(g, BoundingBox(g, bg))
  }

  /** The window of a tight box has content on each of its four edges. */
  lemma WindowOfTightBoxIsTight(g: Grid, bg: int, b: Box, w: Grid)
    requires IsGrid(g) && IsTightBox(g, bg, b) && IsGrid(w) && IsWindow(w, g, b)
    ensures IsTightBox(w, bg, FullBox(w))
  {
    var j1 :| 0 <= j1 < |g[b.top]| && g[b.top][j1] != bg;
    var j2 :| 0 <= j2 < |g[b.bottom]| && g[b.bottom][j2] != bg;
    var i1 :| 0 <= i1 < |g| && 0 <= b.left < |g[i1]| && g[i1][b.left] != bg;
    var i2 :| 0 <= i2 < |g| && 0 <= b.right < |g[i2]| && g[i2][b.right] != bg;
    assert w[0][j1 - b.left] != bg;
    assert w[b.bottom - b.top][j2 - b.left] != bg;
    assert w[i1 - b.top][0] != bg;
    assert w[i2 - b.top][b.right - b.left] != bg;
  }

  /** A grid with a tight box has content. */
  lemma TightBoxHasContent(g: Grid, bg: int, b: Box)
    requires IsGrid(g) && IsTightBox(g, bg, b)
    ensures HasContent(g, bg)
  {
  }

  /** The window of the whole grid is the grid. */
  lemma WholeWindow(w: Grid, g: Grid)
    requires IsGrid(g) && IsWindow(w, g, FullBox(g))
    ensures w == g
  {
    GridExt(w, g);
  }

  /** A cropped grid with content has content on each of its four edges:
      its first and last rows and first and last columns each hold a cell
      different from `bg`. */
  lemma CropEdgesHaveContent(g: Grid, bg: int)
    requires IsGrid(g) && HasContent(g, bg)
    ensures var r := CropToContent(g, bg);
      && HasContent(r, bg)
      && IsTightBox(r, bg, FullBox(r))
  {
    var r := CropToContent(g, bg);
    WindowOfTightBoxIsTight(g, bg, BoundingBox(g, bg), r);
    TightBoxHasContent(r, bg, FullBox(r));
  }

  /** Cropping a grid that was already cropped changes nothing. */
  lemma CropIdempotent(g: Grid, bg: int)
    requires IsGrid(g)
    ensures CropToContent(CropToContent(g, bg), bg) == CropToContent(g, bg)
  {
    var r := CropToContent(g, bg);
    if HasContent(g, bg) {
      CropEdgesHaveContent(g, bg);
      TightBoxUnique(r, bg, BoundingBox(r, bg), FullBox(r));
      WholeWindow(CropToContent(r, bg), r);
    } else {
      assert !HasContent([[bg]], bg);
    }
  }

  /** The interior of a padding whose inner grid avoids the padding colour
      on its ring is the tight box of the content. */
  lemma PaddingInteriorIsTight(f: Grid, g: Grid, c: int)
    requires IsGrid(g) && RingAvoids(g, c) && IsPadding(f, g, c)
    ensures IsTightBox(f, c, Box(1, Rows(g), 1, Cols(g)))
  {
    var R, C := Rows(g), Cols(g);
    assert f[1][1] == g[0][0] != c;
    assert f[R][1] == g[R - 1][0] != c;
    assert f[1][C] == g[0][C - 1] != c;
    assert RowHasContent(f, c, 1) && RowHasContent(f, c, R);
    assert ColHasContent(f, c, 1) && ColHasContent(f, c, C);
    forall i, j | 0 <= i < |f| && 0 <= j < |f[i]| && f[i][j] != c
      ensures 1 <= i <= R && 1 <= j <= C
    {
      if !(1 <= i <= R && 1 <= j <= C) {
        assert OnRing(Rows(f), Cols(f), i, j);
      }
    }
  }

  /** The interior window of a padding is the padded grid. */
  lemma PaddingInteriorWindow(w: Grid, f: Grid, g: Grid, c: int)
    requires IsGrid(g) && IsPadding(f, g, c) && IsWindow(w, f, Box(1, Rows(g), 1, Cols(g)))
    ensures w == g
  {
    GridExt(w, g);
  }

  /** Cropping away a border of colour `c` recovers the padded grid, provided
      the grid's own outermost ring never has colour `c`. */
  lemma CropUndoesFillBorders(g: Grid, c: int)
    requires IsGrid(g) && RingAvoids(g, c)
    ensures CropToContent(FillBorders(g, c), c) == g
  {
    var f := FillBorders(g, c);
    var inner := Box(1, Rows(g), 1, Cols(g));
    PaddingInteriorIsTight(f, g, c);
    assert RowHasContent(f, c, 1);
    TightBoxUnique(f, c, BoundingBox(f, c), inner);
    PaddingInteriorWindow(CropToContent(f, c), f, g, c);
  }

  // ---------------------------------------------------------------------
  // Largest connected object
  // ---------------------------------------------------------------------

  /** The labels' selection loop: scanning labels 1..n with a strict `>`
      against the running maximum (initially 0) yields the first label of
      greatest area, or 0 when every area is 0. */
  method SelectLargest(areas: seq<nat>) returns (largest: nat)
    ensures largest <= |areas|
    ensures largest == 0 <==> forall k :: 0 <= k < |areas| ==> areas[k] == 0
    ensures largest > 0 ==> forall k :: 0 <= k < |areas| ==> areas[k] <= areas[largest - 1]
    ensures largest > 0 ==> forall k :: 0 <= k < largest - 1 ==> areas[k] < areas[largest - 1]
  {
    var maxArea := 0;
    largest := 0;
    var labelId := 1;
    while labelId <= |areas|
      invariant 1 <= labelId <= |areas| + 1
      invariant largest < labelId
      invariant largest == 0 ==> maxArea == 0
      invariant largest > 0 ==> maxArea == areas[largest - 1] > 0
      invariant forall k :: 0 <= k < labelId - 1 ==> areas[k] <= maxArea
      invariant forall k :: 0 <= k < largest - 1 ==> areas[k] < maxArea
    {
      var area := areas[labelId - 1];
      if area > maxArea {
        maxArea := area;
        largest := labelId;
      }
      labelId := labelId + 1;
    }
  }

  /** `r` keeps the colours of the cells in `S` and paints every other cell
      with `bg`. */
  ghost predicate KeepsOnly(g: Grid, bg: int, r: Grid, S: set<Pos>) {
    && SameShape(r, g)
    && forall i, j :: 0 <= i < |g| && 0 <= j < |g[i]| ==>
         r[i][j] == (if Pos(i, j) in S then g[i][j] else bg)
  }

  /** Keeps the colours of the cells in `S`, paints the rest with `bg`. */
  function Mask(g: Grid, bg: int, S: set<Pos>): (r: Grid)
    requires IsGrid(g)
    ensures IsGrid(r) && KeepsOnly(g, bg, r, S)
  {
    seq(|g|, i requires 0 <= i < |g| =>
      seq(|g[i]|, j requires 0 <= j < |g[i]| => if Pos(i, j) in S then g[i][j] else bg))
  }

  /** `s` is the first cell, in row-major order, of the object that
      `FindLargestObject` keeps: no component is larger than its component,
      and every component of equal area lies entirely after `s`. */
  ghost predicate IsSelectedObject(g: Grid, bg: int, s: Pos)
    requires IsGrid(g)
  {
    && IsForeground(g, bg, s)
    && (forall q :: q in ComponentOf(g, bg, s) ==> RowMajorLe(s, q))
    && (forall t :: IsForeground(g, bg, t) ==> |ComponentOf(g, bg, t)| <= |ComponentOf(g, bg, s)|)
    && (forall t :: IsForeground(g, bg, t) && |ComponentOf(g, bg, t)| == |ComponentOf(g, bg, s)| ==> RowMajorLe(s, t))
  }

  /** Keeps only the largest 4-connected object of non-background cells,
      ties going to the object whose first cell comes first in row-major
      order; an all-background grid is returned unchanged. */
  method FindLargestObject(g: Grid, bg: int := 0) returns (r: Grid)
    requires IsGrid(g)
    ensures IsGrid(r) && SameShape(r, g)
    ensures forall i, j :: 0 <= i < |g| && 0 <= j < |g[i]| ==> r[i][j] == g[i][j] || r[i][j] == bg
    ensures !HasContent(g, bg) ==> r == g
    ensures HasContent(g, bg) ==> exists s :: IsSelectedObject(g, bg, s) && KeepsOnly(g, bg, r, ComponentOf(g, bg, s))
  {
    var comps, leaders := LabelComponents(g, bg);
    if |comps| == 0 {
      return g;
    }
    var areas := seq(|comps|, k requires 0 <= k < |comps| => |comps[k]|);
    forall k | 0 <= k < |comps|
      ensures areas[k] > 0
    {
      ComponentBasics(g, bg, leaders[k]);
    }
    assert areas[0] > 0;
    var largest := SelectLargest(areas);
    r := Mask(g, bg, comps[largest - 1]);
    forall k | 0 <= k < |comps|
      ensures |comps[k]| <= |comps[largest - 1]|
      ensures k < largest - 1 ==> |comps[k]| < |comps[largest - 1]|
    {
      assert areas[k] == |comps[k]| && areas[largest - 1] == |comps[largest - 1]|;
    }
    SelectionIsLargest(g, bg, comps, leaders, largest - 1);
  }

  /** The first component of greatest area in a complete labelling is the
      selected object. */
  lemma SelectionIsLargest(g: Grid, bg: int, comps: seq<set<Pos>>, leaders: seq<Pos>, w: nat)
    requires IsGrid(g) && IsScanLabelling(g, bg, comps, leaders)
    requires forall p :: IsForeground(g, bg, p) ==> p in UnionOf(comps)
    requires w < |comps|
    requires forall k :: 0 <= k < |comps| ==> |comps[k]| <= |comps[w]|
    requires forall k :: 0 <= k < w ==> |comps[k]| < |comps[w]|
    ensures IsSelectedObject(g, bg, leaders[w])
  {
    var s := leaders[w];
    forall t | IsForeground(g, bg, t)
      ensures |ComponentOf(g, bg, t)| <= |ComponentOf(g, bg, s)|
      ensures |ComponentOf(g, bg, t)| == |ComponentOf(g, bg, s)| ==> RowMajorLe(s, t)
    {
      var k := LabelOf(g, bg, comps, leaders, t);
      if |comps[k]| == |comps[w]| {
        TieGoesToFirstLabel(comps, leaders, w, k, t);
      }
    }
  }

  /** The component of a labelled foreground cell is the component its label
      stands for. */
  lemma LabelOf(g: Grid, bg: int, comps: seq<set<Pos>>, leaders: seq<Pos>, t: Pos) returns (k: nat)
    requires IsGrid(g) && IsScanLabelling(g, bg, comps, leaders)
    requires t in UnionOf(comps)
    ensures k < |comps| && t in comps[k] && ComponentOf(g, bg, t) == comps[k]
  {
    UnionOfMembers(comps, t);
    k :| 0 <= k < |comps| && t in comps[k];
    SameComponent(g, bg, leaders[k], t);
  }

  /** Among labels of equal area, the first one wins, and its leader comes
      no later than any cell of the later label's component. */
  lemma TieGoesToFirstLabel(comps: seq<set<Pos>>, leaders: seq<Pos>, w: nat, k: nat, t: Pos)
    requires |comps| == |leaders| && w < |comps| && k < |comps|
    requires forall k, q :: 0 <= k < |comps| && q in comps[k] ==> RowMajorLe(leaders[k], q)
    requires forall k, m :: 0 <= k < m < |comps| ==> RowMajorLt(leaders[k], leaders[m])
    requires forall m :: 0 <= m < w ==> |comps[m]| < |comps[w]|
    requires |comps[k]| == |comps[w]| && t in comps[k]
    ensures RowMajorLe(leaders[w], t)
  {
  }

  /** The kept object is a maximal 4-connected set of foreground cells: any
      two of its cells are joined by a path inside the foreground, and no
      foreground cell outside it touches it. */
  lemma SelectedObjectIsMaximalComponent(g: Grid, bg: int, s: Pos)
    requires IsGrid(g) && IsForeground(g, bg, s)
    ensures forall a, b :: a in ComponentOf(g, bg, s) && b in ComponentOf(g, bg, s) ==> Reachable(g, bg, a, b)
    ensures ClosedUnderAdjacency(g, bg, ComponentOf(g, bg, s))
  {
    var S := ComponentOf(g, bg, s);
    forall a, b | a in S && b in S
      ensures Reachable(g, bg, a, b)
    {
      ReachableSymmetric(g, bg, s, a);
      ReachableTransitive(g, bg, a, s, b);
    }
    forall q, n | q in S && Adjacent(q, n) && IsForeground(g, bg, n)
      ensures n in S
    {
      ReachableStep(g, bg, s, q, n);
    }
  }

  /** The selection is unique: two cells that both qualify are the same. */
  lemma SelectedObjectUnique(g: Grid, bg: int, s1: Pos, s2: Pos)
    requires IsGrid(g) && IsSelectedObject(g, bg, s1) && IsSelectedObject(g, bg, s2)
    ensures s1 == s2
  {
  }
}
