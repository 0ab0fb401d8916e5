# Grid primitives for an ARC solver, modelled in Dafny

This project models the five static methods of `GridPrimitives`:

- `rotate_90`, a clockwise quarter turn;
- `reflect_horizontal`, a top-to-bottom flip;
- `crop_to_content`, which crops to the bounding box of the non-background cells;
- `find_largest_object`, which keeps only the largest 4-connected object of non-background cells;
- `fill_borders`, which pads the grid with a one-cell ring of a colour.

The background colour of `CropToContent` and `FindLargestObject` defaults to 0, as in the source. A grid is a rectangular `seq<seq<int>>` with at least one row and one column (`Grids.IsGrid`). Every operation returns a new grid.

Modules:

- `Grids`: the data model. It defines grids, cell positions, foreground cells, row-major order, and sequence reversal.
- `Connectivity`: 4-adjacency and paths through foreground cells. `ComponentOf` defines a connected component as the set of cells reachable from a seed. The module also holds a flood fill proved to compute exactly that set, and a row-major labelling of every component. The labelling is how the model gets the labels that `scipy.ndimage.label` produces.
- `GridPrimitives`: the five operations and their properties.
- `Examples`: worked examples as lemmas and methods about concrete grids. They cover rotation, border fill, cropping, and keeping the largest object, including a tie between two objects of equal area.

## Model

| member | source | states |
|---|---|---|
| GridPrimitives.Rotate90 | arc_primitives.py:21 | The result of an R x C grid is C x R, and `r[i][j] == g[R-1-j][i]`: the left column, read bottom to top, becomes the top row |
| GridPrimitives.RotateTwice | arc_primitives.py:21 | Two clockwise turns give a grid of the same shape with `r[i][j] == g[R-1-i][C-1-j]` |
| GridPrimitives.RotateFourTimes | arc_primitives.py:21 | Four clockwise turns give back the original grid |
| GridPrimitives.RotateIsTransposedReflection | arc_primitives.py:21-34 | A clockwise turn equals a top-to-bottom flip followed by a transpose |
| GridPrimitives.Transpose | arc_primitives.py:21 | `t[j][i] == g[i][j]`, with the dimensions swapped |
| GridPrimitives.ReflectHorizontal | arc_primitives.py:34 | Same shape as the input; row i of the result is row R-1-i of the input |
| GridPrimitives.ReflectTwice | arc_primitives.py:34 | Flipping twice gives back the original grid |
| GridPrimitives.BoundingBox | arc_primitives.py:49-53 | The row and column extremes of the cells different from bg form a tight box: it lies in the grid, contains every such cell, and each of its four edges touches one |
| GridPrimitives.TightBoxUnique | arc_primitives.py:52-53 | Any two tight boxes of the same grid and background are equal, so the box that min/max computes is the only one |
| GridPrimitives.Window | arc_primitives.py:54 | The slice has the box's height and width and holds `g[top+i][left+j]` at (i, j) |
| GridPrimitives.CropToContent | arc_primitives.py:49-54 | An all-background grid gives `[[bg]]`; otherwise the result is the window of the tight bounding box |
| GridPrimitives.CropEdgesHaveContent | arc_primitives.py:49-54 | A cropped grid with content has a non-background cell in its first row, last row, first column and last column |
| GridPrimitives.CropIdempotent | arc_primitives.py:49-54 | Cropping an already cropped grid returns it unchanged |
| GridPrimitives.FillBorders | arc_primitives.py:96-98 | The result is (R+2) x (C+2); every outermost-ring cell is the border colour; `r[i+1][j+1] == g[i][j]` |
| GridPrimitives.CropUndoesFillBorders | arc_primitives.py:49-54 | Cropping a bordered grid with the border colour as background gives back the original grid, provided the original's outermost ring never has that colour |
| Connectivity.Neighbours | arc_primitives.py:69 | Exactly four positions, and q is among them iff q is 4-adjacent to p |
| Connectivity.FloodFill | arc_primitives.py:69 | The returned set is exactly the set of cells joined to the seed by a 4-connected path of non-background cells |
| Connectivity.NewLeaderIsFirst | arc_primitives.py:69 | When every earlier foreground cell in row-major order is already labelled, the first unlabelled foreground cell comes first in its component |
| Connectivity.LabelCell | arc_primitives.py:69 | One raster step keeps the labelling invariant: each label is one whole component, named by its first cell, labels are numbered in raster order, and every foreground cell up to the current one is labelled |
| Connectivity.LabellingComplete | arc_primitives.py:69-70 | A labelling that covers every foreground cell has zero labels iff the grid has no foreground cell |
| Connectivity.LabelComponents | arc_primitives.py:69-70 | Every 4-connected component of non-background cells gets exactly one label, labels are numbered by first cell in row-major order, and there are none iff the grid is all background |
| Connectivity.UnionOfMembers | arc_primitives.py:69 | A position is in the union of the labelled components iff some label contains it |
| Connectivity.SameComponent | arc_primitives.py:69 | Two cells of one component have the same component |
| Connectivity.ReachableSymmetric | arc_primitives.py:69 | 4-connectivity through foreground cells is symmetric |
| Connectivity.ReachableTransitive | arc_primitives.py:69 | 4-connectivity through foreground cells is transitive |
| Connectivity.ClosedContainsReachable | arc_primitives.py:69 | A set containing a cell that is closed under foreground 4-adjacency contains every cell reachable from it |
| GridPrimitives.SelectLargest | arc_primitives.py:73-79 | The strict `>` scan from max_area 0 returns 0 iff every area is 0; otherwise the label's area is the maximum and every earlier label is strictly smaller, so ties go to the lowest label |
| GridPrimitives.Mask | arc_primitives.py:81 | Same shape as the input; cells in the kept set keep their colour and every other cell becomes bg |
| GridPrimitives.FindLargestObject | arc_primitives.py:57-82 | The result has the input's shape and each cell is either the input's or bg. An all-background grid comes back unchanged. Otherwise exactly one component is kept: no component is larger, and every component of equal area starts later in row-major order |
| GridPrimitives.SelectionIsLargest | arc_primitives.py:73-81 | The first label of greatest area in a complete labelling names the selected object |
| GridPrimitives.LabelOf | arc_primitives.py:76 | Each labelled foreground cell belongs to the label whose set is its component |
| GridPrimitives.TieGoesToFirstLabel | arc_primitives.py:77 | Among labels of equal area the earlier label wins, and its first cell precedes every cell of the later one |
| GridPrimitives.SelectedObjectIsMaximalComponent | arc_primitives.py:69 | The kept object is 4-connected, and no foreground cell outside it touches it |
| GridPrimitives.SelectedObjectUnique | arc_primitives.py:73-79 | At most one cell qualifies as the selected object's first cell |
| Examples.RotateExample | arc_primitives.py:21 | Rotating [[1,2],[3,4]] clockwise gives [[3,1],[4,2]] |
| Examples.FillBordersExample | arc_primitives.py:96-98 | Padding [[5]] with 9 gives [[9,9,9],[9,5,9],[9,9,9]] |
| Examples.CropExample | arc_primitives.py:49-54 | Cropping [[1,0],[0,0]] with background 0 gives [[1]] |
| Examples.CropAllBackgroundExample | arc_primitives.py:50-51 | The all-7 grid [[7,7,7],[7,7,7]] with background 7 crops to [[7]] |
| Connectivity.ComponentIsClosedConnectedSet | arc_primitives.py:69 | A set that contains the seed, whose cells are all reachable from the seed, and that no foreground neighbour leaves, is exactly the seed's component |
| Examples.LShapeResult | arc_primitives.py:69-81 | Every result the contract of `FindLargestObject` allows on [[5,0,2],[5,5,0],[0,0,2]] with background 0 is [[5,0,0],[5,5,0],[0,0,0]]: the three-cell L is kept and the two single cells are cleared |
| Examples.LShapeExample | arc_primitives.py:57-82 | `FindLargestObject` with the default background 0 maps [[5,0,2],[5,5,0],[0,0,2]] to [[5,0,0],[5,5,0],[0,0,0]] |
| Examples.TwoBarsResult | arc_primitives.py:73-81 | On [[3,0,4],[3,0,4]], where two objects of two cells tie, every result the contract allows keeps the left object, which the row-major scan labels first: [[3,0,0],[3,0,0]] |
| Examples.TwoBarsExample | arc_primitives.py:57-82 | `FindLargestObject` with the default background 0 maps [[3,0,4],[3,0,4]] to [[3,0,0],[3,0,0]] |

## Left out

- Labelling order: `scipy.ndimage.label` is not part of this model. Its labels are modelled as numbered by each component's first cell in row-major order. The tie-break in `find_largest_object` depends on that numbering, so it is an assumption about scipy, not a proved fact.
- The default structuring element of `label` is modelled as 4-adjacency, with no diagonals.
- Array mechanics: numpy views versus copies and `dtype` are not modelled. Colours are unbounded integers, so there is no overflow or narrowing. `fill_borders` preserves the input's dtype; that has no counterpart here.
- Malformed input: grids with no rows, no columns, ragged rows or more than two dimensions are excluded by the `IsGrid` precondition. `np.rot90`, `np.flipud` and slicing have their own behaviour on such arrays, which is not modelled.
- Rotate90: the equation with `np.rot90(grid, -1)` is stated through the index formula; numpy's own implementation is not modelled.
