/** Connected components of foreground cells under 4-connectivity (orthogonal
    neighbours only, no diagonal links), and a labelling pass that numbers the
    components in row-major order of their first cell. This is the part of
    `find_largest_object` that the repository delegates to an image-processing
    library; here it is specified by reachability and computed by flood fill. */
module Connectivity {
  import opened Grids

  /** `p` and `q` share an edge. */
  predicate Adjacent(p: Pos, q: Pos) {
    || (p.row == q.row && (p.col == q.col + 1 || q.col == p.col + 1))
    || (p.col == q.col && (p.row == q.row + 1 || q.row == p.row + 1))
  }

  /** The four orthogonal neighbours of `p`: up, down, left, right. */
  function Neighbours(p: Pos): (ns: seq<Pos>)
    ensures |ns| == 4
    ensures forall q :: q in ns <==> Adjacent(p, q)
  {
    [Pos(p.row - 1, p.col), Pos(p.row + 1, p.col), Pos(p.row, p.col - 1), Pos(p.row, p.col + 1)]
  }

  /** `path` walks from `a` to `b` through foreground cells, each step to an
      adjacent cell. */
  ghost predicate IsPath(g: Grid, bg: int, path: seq<Pos>, a: Pos, b: Pos) {
    && |path| >= 1
    && path[0] == a
    && path[|path| - 1] == b
    && (forall k :: 0 <= k < |path| ==> IsForeground(g, bg, path[k]))
    && (forall k :: 0 <= k < |path| - 1 ==> Adjacent(path[k], path[k + 1]))
  }

  /** `b` can be reached from `a` without leaving the foreground. */
  ghost predicate Reachable(g: Grid, bg: int, a: Pos, b: Pos) {
    exists path :: IsPath(g, bg, path, a, b)
  }

  /** The connected component of `s`: every cell reachable from it. */
  ghost function ComponentOf(g: Grid, bg: int, s: Pos): set<Pos>
    requires IsGrid(g)
  {
    set q | q in Cells(g) && Reachable(g, bg, s, q)
  }

  /** No foreground neighbour of a cell of `S` lies outside `S`. */
  ghost predicate ClosedUnderAdjacency(g: Grid, bg: int, S: set<Pos>) {
    forall q, n :: q in S && Adjacent(q, n) && IsForeground(g, bg, n) ==> n in S
  }

  lemma ReachableRefl(g: Grid, bg: int, a: Pos)
    requires IsForeground(g, bg, a)
    ensures Reachable(g, bg, a, a)
  {
    assert IsPath(g, bg, [a], a, a);
  }

  lemma ReachableEndsInForeground(g: Grid, bg: int, a: Pos, b: Pos)
    requires Reachable(g, bg, a, b)
    ensures IsForeground(g, bg, a) && IsForeground(g, bg, b)
  {
  }

  /** One more step through an adjacent foreground cell. */
  lemma ReachableStep(g: Grid, bg: int, a: Pos, b: Pos, c: Pos)
    requires Reachable(g, bg, a, b)
    requires Adjacent(b, c) && IsForeground(g, bg, c)
    ensures Reachable(g, bg, a, c)
  {
    var path :| IsPath(g, bg, path, a, b);
    var path' := path + [c];
    assert IsPath(g, bg, path', a, c);
  }

  /** Adjacency is symmetric, so every path can be walked backwards. */
  lemma ReachableSymmetric(g: Grid, bg: int, a: Pos, b: Pos)
    requires Reachable(g, bg, a, b)
    ensures Reachable(g, bg, b, a)
  {
    var path :| IsPath(g, bg, path, a, b);
    var back := Reverse(path);
    forall k | 0 <= k < |back| - 1
      ensures Adjacent(back[k], back[k + 1])
    {
      assert back[k] == path[|path| - 1 - k];
      assert back[k + 1] == path[|path| - 1 - (k + 1)];
      assert Adjacent(path[|path| - 2 - k], path[|path| - 1 - k]);
    }
    assert IsPath(g, bg, back, b, a);
  }

  lemma ReachableTransitive(g: Grid, bg: int, a: Pos, b: Pos, c: Pos)
    requires Reachable(g, bg, a, b) && Reachable(g, bg, b, c)
    ensures Reachable(g, bg, a, c)
  {
    var p1 :| IsPath(g, bg, p1, a, b);
    var p2 :| IsPath(g, bg, p2, b, c);
    var p := p1 + p2[1..];
    forall k | 0 <= k < |p| - 1
      ensures Adjacent(p[k], p[k + 1])
    {
      if k < |p1| - 1 {
        assert p[k] == p1[k] && p[k + 1] == p1[k + 1];
      } else {
        assert p[k] == p2[k - |p1| + 1] && p[k + 1] == p2[k - |p1| + 2];
      }
    }
    assert IsPath(g, bg, p, a, c);
  }

  /** A set that contains `a` and is closed under foreground adjacency
      contains everything reachable from `a`. */
  lemma {:induction false} ClosedContainsReachable(g: Grid, bg: int, S: set<Pos>, a: Pos, b: Pos)
    requires ClosedUnderAdjacency(g, bg, S)
    requires a in S && Reachable(g, bg, a, b)
    ensures b in S
  {
    var path :| IsPath(g, bg, path, a, b);
    var k := 0;
    while k < |path| - 1
      invariant 0 <= k <= |path| - 1
      invariant path[k] in S
    {
      assert Adjacent(path[k], path[k + 1]) && IsForeground(g, bg, path[k + 1]);
      k := k + 1;
    }
  }

  /** Two cells of one component have the same component. */
  lemma SameComponent(g: Grid, bg: int, s: Pos, t: Pos)
    requires IsGrid(g) && Reachable(g, bg, s, t)
    ensures ComponentOf(g, bg, s) == ComponentOf(g, bg, t)
  {
    ReachableSymmetric(g, bg, s, t);
    forall q | q in ComponentOf(g, bg, s)
      ensures q in ComponentOf(g, bg, t)
    {
      ReachableTransitive(g, bg, t, s, q);
    }
    forall q | q in ComponentOf(g, bg, t)
      ensures q in ComponentOf(g, bg, s)
    {
      ReachableTransitive(g, bg, s, t, q);
    }
  }

  /** A set of cells that are all reachable from `s`, that contains `s` and
      that no foreground neighbour escapes is exactly the component of `s`. */
  lemma ComponentIsClosedConnectedSet(g: Grid, bg: int, s: Pos, S: set<Pos>)
    requires IsGrid(g) && s in S && S <= Cells(g)
    requires forall q :: q in S ==> Reachable(g, bg, s, q)
    requires ClosedUnderAdjacency(g, bg, S)
    ensures ComponentOf(g, bg, s) == S
  {
    forall q | q in ComponentOf(g, bg, s)
      ensures q in S
    {
      ClosedContainsReachable(g, bg, S, s, q);
    }
  }

  /** A foreground cell lies in its own component, and a component holds
      foreground cells only. */
  lemma ComponentBasics(g: Grid, bg: int, s: Pos)
    requires IsGrid(g) && IsForeground(g, bg, s)
    ensures s in ComponentOf(g, bg, s)
    ensures forall q :: q in ComponentOf(g, bg, s) ==> IsForeground(g, bg, q)
  {
    ReachableRefl(g, bg, s);
    forall q | q in ComponentOf(g, bg, s)
      ensures IsForeground(g, bg, q)
    {
      ReachableEndsInForeground(g, bg, s, q);
    }
  }

  /** Flood fill from a foreground seed: returns exactly the maximal
      4-connected set of foreground cells containing the seed. */
  method FloodFill(g: Grid, bg: int, seed: Pos) returns (comp: set<Pos>)
    requires IsGrid(g) && IsForeground(g, bg, seed)
    ensures comp == ComponentOf(g, bg, seed)
  {
    ReachableRefl(g, bg, seed);
    comp := {seed};
    var work := {seed};
    while work != {}
      invariant work <= comp <= Cells(g)
      invariant forall q :: q in comp ==> Reachable(g, bg, seed, q)
      invariant forall q, n :: q in comp && q !in work && Adjacent(q, n) && IsForeground(g, bg, n) ==> n in comp
      decreases Cells(g) - comp, work
    {
      var p :| p in work;
      work := work - {p};
      ghost var comp0, work0 := comp, work;
      var ns := Neighbours(p);
      var k := 0;
      while k < 4
        invariant 0 <= k <= 4
        invariant comp0 <= comp <= Cells(g)
        invariant work == work0 + (comp - comp0)
        invariant forall q :: q in comp ==> Reachable(g, bg, seed, q)
        invariant forall m :: 0 <= m < k && IsForeground(g, bg, ns[m]) ==> ns[m] in comp
      {
        var n := ns[k];
        if IsForeground(g, bg, n) && n !in comp {
          ReachableStep(g, bg, seed, p, n);
          comp := comp + {n};
          work := work + {n};
        }
        k := k + 1;
      }
    }
    assert ClosedUnderAdjacency(g, bg, comp);
    forall q | q in ComponentOf(g, bg, seed)
      ensures q in comp
    {
      ClosedContainsReachable(g, bg, comp, seed, q);
    }
  }

  /** The union of a sequence of sets. */
  function UnionOf(cs: seq<set<Pos>>): set<Pos>
  {
    if |cs| == 0 then {} else UnionOf(cs[..|cs| - 1]) + cs[|cs| - 1]
  }

  /** A cell is in the union exactly when some set of the sequence holds it. */
  lemma {:induction false} UnionOfMembers(cs: seq<set<Pos>>, q: Pos)
    ensures q in UnionOf(cs) <==> exists k :: 0 <= k < |cs| && q in cs[k]
  {
    if |cs| > 0 {
      var init := cs[..|cs| - 1];
      UnionOfMembers(init, q);
      if q in UnionOf(init) {
        var k :| 0 <= k < |init| && q in init[k];
        assert q in cs[k];
      }
      if exists k :: 0 <= k < |cs| && q in cs[k] {
        var k :| 0 <= k < |cs| && q in cs[k];
        if k < |init| {
          assert q in init[k];
        }
      }
    }
  }

  /** A cell that comes before `s` in row-major order is not reachable from
      `s` once every foreground cell before `s` has been labelled and `s`
      itself has not: `s` is the first cell of its component. */
  lemma NewLeaderIsFirst(g: Grid, bg: int, comps: seq<set<Pos>>, leaders: seq<Pos>, s: Pos)
    requires IsGrid(g) && IsForeground(g, bg, s)
    requires |comps| == |leaders|
    requires forall k :: 0 <= k < |comps| ==> comps[k] == ComponentOf(g, bg, leaders[k])
    requires forall p {:trigger RowMajorLt(p, s)} :: IsForeground(g, bg, p) && RowMajorLt(p, s) ==> p in UnionOf(comps)
    requires s !in UnionOf(comps)
    ensures forall q :: q in ComponentOf(g, bg, s) ==> RowMajorLe(s, q)
  {
    forall q | q in ComponentOf(g, bg, s)
      ensures RowMajorLe(s, q)
    {
      if RowMajorLt(q, s) {
        ReachableEndsInForeground(g, bg, s, q);
        UnionOfMembers(comps, q);
        var k :| 0 <= k < |comps| && q in comps[k];
        ReachableSymmetric(g, bg, s, q);
        ReachableTransitive(g, bg, leaders[k], q, s);
        UnionOfMembers(comps, s);
        assert false;
      }
    }
  }

  /** What a labelling pass keeps true: component `k` is the component of
      `leaders[k]`, a foreground cell that is the first cell of its component
      in row-major order; leaders are numbered in row-major order. */
  ghost predicate IsScanLabelling(g: Grid, bg: int, comps: seq<set<Pos>>, leaders: seq<Pos>)
    requires IsGrid(g)
  {
    && |comps| == |leaders|
    && (forall k :: 0 <= k < |comps| ==> IsForeground(g, bg, leaders[k]))
    && (forall k :: 0 <= k < |comps| ==> comps[k] == ComponentOf(g, bg, leaders[k]))
    && (forall k, q :: 0 <= k < |comps| && q in comps[k] ==> RowMajorLe(leaders[k], q))
    && (forall k, m :: 0 <= k < m < |comps| ==> RowMajorLt(leaders[k], leaders[m]))
  }

  /** One step of the row-major scan, at cell `p`: a foreground cell that no
      earlier component holds starts a new component. `seen` is the union of
      the components found so far. */
  method LabelCell(g: Grid, bg: int, comps: seq<set<Pos>>, leaders: seq<Pos>, seen: set<Pos>, p: Pos)
      returns (comps': seq<set<Pos>>, leaders': seq<Pos>, seen': set<Pos>)
    requires IsGrid(g) && InBounds(g, p)
    requires IsScanLabelling(g, bg, comps, leaders) && seen == UnionOf(comps)
    requires forall k :: 0 <= k < |leaders| ==> RowMajorLt(leaders[k], p)
    requires forall q {:trigger RowMajorLt(q, p)} :: IsForeground(g, bg, q) && RowMajorLt(q, p) ==> q in seen
    ensures IsScanLabelling(g, bg, comps', leaders') && seen' == UnionOf(comps')
    ensures forall k :: 0 <= k < |leaders'| ==> RowMajorLe(leaders'[k], p)
    ensures forall q {:trigger RowMajorLe(q, p)} :: IsForeground(g, bg, q) && RowMajorLe(q, p) ==> q in seen'
  {
    comps', leaders', seen' := comps, leaders, seen;
    if g[p.row][p.col] != bg && p !in seen {
      NewLeaderIsFirst(g, bg, comps, leaders, p);
      var c := FloodFill(g, bg, p);
      ComponentBasics(g, bg, p);
      comps', leaders' := comps + [c], leaders + [p];
      seen' := seen + c;
      assert comps'[..|comps'| - 1] == comps;
    }
  }

  /** A labelling that covers the whole foreground has no component exactly
      when the grid is all background. */
  lemma LabellingComplete(g: Grid, bg: int, comps: seq<set<Pos>>, leaders: seq<Pos>)
    requires IsGrid(g) && IsScanLabelling(g, bg, comps, leaders)
    requires forall q :: IsForeground(g, bg, q) ==> q in UnionOf(comps)
    ensures |comps| == 0 <==> !HasContent(g, bg)
  {
    if |comps| > 0 {
      assert IsForeground(g, bg, leaders[0]);
    }
    if HasContent(g, bg) {
      var a, b :| 0 <= a < |g| && 0 <= b < |g[a]| && g[a][b] != bg;
      assert IsForeground(g, bg, Pos(a, b));
    }
  }

  /** Labels the components of the foreground, scanning the grid in
      row-major order and flood-filling from every foreground cell not yet
      labelled. Component `k` (label `k + 1`) is the component of
      `leaders[k]`, which is its first cell in row-major order; labels follow
      that order; every foreground cell gets a label. */
  method LabelComponents(g: Grid, bg: int) returns (comps: seq<set<Pos>>, leaders: seq<Pos>)
    requires IsGrid(g)
    ensures IsScanLabelling(g, bg, comps, leaders)
    ensures forall p :: IsForeground(g, bg, p) ==> p in UnionOf(comps)
    ensures |comps| == 0 <==> !HasContent(g, bg)
  {
    comps, leaders := [], [];
    var seen: set<Pos> := {};
    var i := 0;
    while i < |g|
      invariant 0 <= i <= |g|
      invariant IsScanLabelling(g, bg, comps, leaders) && seen == UnionOf(comps)
      invariant forall k :: 0 <= k < |leaders| ==> RowMajorLt(leaders[k], Pos(i, 0))
      invariant forall q {:trigger RowMajorLt(q, Pos(i, 0))} :: IsForeground(g, bg, q) && RowMajorLt(q, Pos(i, 0)) ==> q in seen
    {
      var j := 0;
      while j < |g[0]|
        invariant 0 <= j <= |g[0]|
        invariant IsScanLabelling(g, bg, comps, leaders) && seen == UnionOf(comps)
        invariant forall k :: 0 <= k < |leaders| ==> RowMajorLt(leaders[k], Pos(i, j))
        invariant forall q {:trigger RowMajorLt(q, Pos(i, j))} :: IsForeground(g, bg, q) && RowMajorLt(q, Pos(i, j)) ==> q in seen
      {
        comps, leaders, seen := LabelCell(g, bg, comps, leaders, seen, Pos(i, j));
        forall q | IsForeground(g, bg, q) && RowMajorLt(q, Pos(i, j + 1))
          ensures q in seen
        {
          assert RowMajorLe(q, Pos(i, j));
        }
        j := j + 1;
      }
      forall q | IsForeground(g, bg, q) && RowMajorLt(q, Pos(i + 1, 0))
        ensures q in seen
      {
        assert RowMajorLt(q, Pos(i, j));
      }
      i := i + 1;
    }
    forall q | IsForeground(g, bg, q)
      ensures q in UnionOf(comps)
    {
      assert RowMajorLt(q, Pos(i, 0));
    }
    LabellingComplete(g, bg, comps, leaders);
  }
}
