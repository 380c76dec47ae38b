# Mesh plotting and progress reporting of nutils, modelled in Dafny

This project models two parts of the nutils plotting and logging code.

- `PyPlot.mesh` draws a finite-element mesh. A flat array of points is cut into element
  patches at the blank (all-NaN) points, and each patch is triangulated. Delaunay is used,
  with the boundary recovered by walking the convex-hull edges, or a bezier layout: a
  square of `k*k` points or a triangle of `m(m+1)/2` points. The patches are then
  gathered into one point array with renumbered triangles, aligned colors and one closed
  boundary line per patch. A gridded `nx x ny` array is triangulated directly, two
  triangles per cell. With `setxylim` the axis limits are the extremes of the
  coordinates.
- The helper `_nansplit` cuts an array at every row holding a NaN.
- `BasePlot.__init__` numbers the names of plot files.
- `log.py` has the verbosity gate of `log` and the text `ProgressBar`: title, growing
  dashes, end text, elapsed time.

Modules, one per file:

| file | module | what |
|---|---|---|
| `results.dfy` | `Results` | `Option`, `Result` and the loop that stops at the first error |
| `arith.dfy` | `Arith` | multiplication and floor-division monotonicity |
| `split.dfy` | `Split` | separator positions, the runs between them, flattening |
| `segmenter.dfy` | `Segmenter` | `_nansplit` and the patch segmentation of `mesh` |
| `roots.dfy` | `Roots` | the integer meaning of the two square-root tests |
| `grid.dfy` | `Grid` | the cell split of a structured grid |
| `bezier.dfy` | `Bezier` | the square and triangular bezier layouts and the choice between them |
| `hull.dfy` | `Hull` | the convex-hull walk |
| `assembly.dfy` | `Assembly` | gathering the patches, axis limits |
| `mesh.dfy` | `Mesh` | `PyPlot.mesh` end to end |
| `fileindex.dfy` | `FileIndex` | the numbered file names |
| `progress.dfy` | `Progress` | `log` and `ProgressBar` |

Where the code and the library's own description of it differ, the model follows the
code:

- The color check of `mesh` (nutils/plot.py:145-146) only requires the color at every
  blank point to be NaN. A NaN color at a non-blank point is accepted (`Mesh.ColorClash`).
- The hull walk (nutils/plot.py:164-178) checks only that the walk returns to its first
  point. It does not check that every boundary point is visited once, so a figure-eight
  of edges is accepted (`Hull.HullWalk`).
- Points have exactly two coordinates (nutils/plot.py:125), not two or three.

## Model

| member | source | states |
|---|---|---|
| Segmenter.NanSplit | nutils/plot.py:5-8 | fails exactly on an array without rows, where `reshape(0, -1)` cannot size its free axis; otherwise one piece more than there are NaN rows; piece `k` is the rows from just after the `k`-th NaN row (or 0) up to the next NaN row (or the end); no piece holds a NaN row; the pieces laid end to end are the input without its NaN rows |
| Segmenter.NanSplitCuts | nutils/plot.py:7-8 | the runs of `_nansplit` start just after one NaN row and end at the next, the first at 0 and the last at the end |
| Split.RunsAreBetween | nutils/plot.py:7-8 | run `k` spans from just past separator `k-1` (or 0) to separator `k` (or the end) |
| Segmenter.PiecesHaveNoNaN | nutils/plot.py:5-8 | no piece of `_nansplit` holds a row with a NaN |
| Split.Find | nutils/plot.py:144 | `find` lists exactly the positions of the separator rows, in increasing order |
| Split.FindCountsSeparators | nutils/plot.py:143-144 | every row is either a separator listed by `find` or a kept row |
| Split.RunsBetween | nutils/plot.py:7-8 | `zip([-1]+n, n+[len])` with each start moved past its separator: one run per gap, the first starts at 0, the last ends at the end, each run ends at the next separator and the next one starts just after it, and no run holds a separator |
| Split.Runs | nutils/plot.py:154 | the runs between the separators: one more than there are separators, each ends at a separator or the end of the array, the next starts just after it, none holds a separator, and they are ordered |
| Split.RunsCoverClearRows | nutils/plot.py:154 | every non-separator row lies in some run |
| Split.RunsRebuildInput | nutils/plot.py:154-158 | the runs laid end to end are the input without its separator rows |
| Split.NonEmpty | nutils/plot.py:155-157 | skipping empty runs keeps one run per non-empty run, each at its position among the runs |
| Split.NonEmptyIsFilter | nutils/plot.py:155-157 | the kept runs are exactly the runs left after dropping the empty ones, in their order |
| Split.NonEmptyPiecesSame | nutils/plot.py:155-157 | skipping empty runs loses no row |
| Split.NonEmptyRunsAreMaximal | nutils/plot.py:154-157 | a kept run is non-empty, holds no separator, and is bounded by a separator or an end on each side |
| Split.PiecesPairUp | nutils/plot.py:158-160 | cutting two aligned arrays by the same spans and concatenating puts row `p` of both at the same position |
| Segmenter.Segment | nutils/plot.py:143-157 | the patches are non-empty, blank-free and bounded on each side by a blank point or an end, they are in input order, and every non-blank point is in one |
| Segmenter.SegmentsAreMaximal | nutils/plot.py:154-157 | the runs left after skipping empty ones are maximal non-empty blank-free runs |
| Segmenter.SegmentsInOrder | nutils/plot.py:154-157 | those runs come in input order, each ending before the next starts |
| Segmenter.SegmentsCover | nutils/plot.py:154-157 | every non-blank point lies in a patch |
| Segmenter.SegmentKeepsEveryPoint | nutils/plot.py:154-158 | the patches laid end to end are the points without the blank ones |
| Segmenter.SegmentFindsEveryRun | nutils/plot.py:154-157 | the converse of `Segment`: every maximal non-empty run of non-blank points is a patch |
| Segmenter.SegmentExample | nutils/plot.py:154-157 | ten points with blank points at rows 3 and 7 give the patches 0-2, 4-6 and 8-9 |
| Roots.QuadSide | nutils/plot.py:180 | `int(sqrt(np)+.5)` is the least `k` with `np <= k(k+1)` |
| Roots.FloorSqrt | nutils/plot.py:181 | the integer square root: `r*r <= x < (r+1)*(r+1)` |
| Roots.TriSide | nutils/plot.py:181 | `int(sqrt(2np+.25))` is the `r` with `r*r <= 2np < (r+1)*(r+1)` |
| Roots.SquareTest | nutils/plot.py:180-182 | `nquad**2 == np` holds exactly when `np` is a perfect square |
| Roots.SquareSide | nutils/plot.py:180-182 | for `np = k*k` the rounded root is `k` |
| Roots.TriangleTest | nutils/plot.py:181-188 | `ntri*(ntri+1) == 2*np` holds exactly when `np` is a triangular number |
| Roots.TriangleSide | nutils/plot.py:181-188 | for `2np = m(m+1)` the root is `m` |
| Roots.SquareAndTriangular | nutils/plot.py:182-188 | 1 and 36 are both square and triangular, so the square test must come first |
| Roots.Mono | nutils/plot.py:180-181 | squares and pronic numbers grow with their root |
| Grid.AtInjective | nutils/plot.py:135 | `ind[i, j]` names each grid point once |
| Grid.AtInRange | nutils/plot.py:135 | `ind[i, j]` lies inside the flattened array |
| Grid.Halves | nutils/plot.py:136-137 | one triangle per cell, `(nx-1)(ny-1)` of them, each naming points of the grid |
| Grid.HalvesAt | nutils/plot.py:136-137 | position `i(ny-1)+j` of `vert1`/`vert2` holds the half of cell `(i, j)` |
| Grid.CellSplit | nutils/plot.py:135-138 | `2(nx-1)(ny-1)` triangles, each naming points of the grid |
| Grid.CellSplitListsEveryCell | nutils/plot.py:135-138 | every cell has its near half in the first list and its far half `(nx-1)(ny-1)` later |
| Grid.CellSides | nutils/plot.py:136-137 | together the two halves of a cell have its four sides |
| Grid.HalvesShareDiagonal | nutils/plot.py:136-137 | both halves have the diagonal from `(i+1, j)` to `(i, j+1)`, and neither has the other diagonal |
| Bezier.SquareHull | nutils/plot.py:187 | the square hull has `4k-3` entries and starts and ends at point 0 |
| Bezier.SquareHullAt | nutils/plot.py:187 | step `t` of the square hull is a point on the square's rim |
| Bezier.SquareHullDistinct | nutils/plot.py:187 | the square hull visits each rim point once before closing |
| Bezier.SquareHullVisits | nutils/plot.py:187 | every rim point of the square is on the hull |
| Bezier.SquareHullFollowsEdges | nutils/plot.py:183-187 | each pair of neighbours on the square hull is a side of a triangle of the layout |
| Bezier.SquareLayout | nutils/plot.py:183-187 | `2(k-1)^2` triangles naming the `k*k` points, and a closed hull of `4k-3` entries inside the patch |
| Bezier.OffsetIsRowStart | nutils/plot.py:189-190 | `((2m-i+1)i)//2` is the number of points in the rows before row `i` |
| Bezier.RowStartMono | nutils/plot.py:189-190 | later rows start further on, by at least the row difference |
| Bezier.TriAtInjective | nutils/plot.py:189-190 | the triangular numbering names each point once |
| Bezier.TriAtInRange | nutils/plot.py:189-190 | the triangular numbering stays inside the patch |
| Bezier.TrianglesOfRows | nutils/plot.py:189-190 | `vert1`/`vert2` entries are the upward and downward triangles of the layout rows |
| Bezier.UpRowsStart | nutils/plot.py:189 | the upward triangles of the rows before row `i` number `RowStart(i) - i` |
| Bezier.DownRowsStart | nutils/plot.py:190 | the downward triangles of the rows before row `i` number `RowStart(i) - 2i` |
| Bezier.TriSplit | nutils/plot.py:189-191 | `m(m-1)/2` upward and `(m-1)(m-2)/2` downward triangles, `(m-1)^2` in all, each naming points of the patch |
| Bezier.TriSplitCounts | nutils/plot.py:189-191 | the two triangle counts and their sum |
| Bezier.UpTriAt | nutils/plot.py:189 | where the upward triangle of row `i`, column `j` sits in the list |
| Bezier.DownTriAt | nutils/plot.py:190 | where the downward triangle of row `i`, column `j` sits in the list |
| Bezier.TriHull | nutils/plot.py:192 | the triangular hull has `3m-2` entries |
| Bezier.RightSum | nutils/plot.py:192 | the running sums of `arange(m-1, 0, -1)` plus `m-1` reach the last point of each row |
| Bezier.LeftSum | nutils/plot.py:192 | the reversed running sums of `arange(m+1, 2, -1)` minus `m+1` reach the first point of each row |
| Bezier.TriHullAt | nutils/plot.py:192 | step `t` of the triangular hull is a point on the triangle's rim |
| Bezier.TriHullCloses | nutils/plot.py:192 | the triangular hull starts and ends at point 0 |
| Bezier.TriHullDistinct | nutils/plot.py:192 | the triangular hull visits each rim point once before closing |
| Bezier.TriHullVisits | nutils/plot.py:192 | every rim point of the triangle is on the hull |
| Bezier.TriHullFollowsEdges | nutils/plot.py:189-192 | each pair of neighbours on the triangular hull is a side of a triangle of the layout |
| Bezier.TriLayout | nutils/plot.py:188-192 | `(m-1)^2` triangles naming the patch's points, and a closed hull of `3m-2` entries inside the patch |
| Bezier.BezierLayout | nutils/plot.py:180-194 | a layout exists exactly for square or triangular sizes; square wins when both apply; either layout numbers only patch points and closes its hull |
| Bezier.SquareSides | nutils/plot.py:182-183 | a square size has one side length |
| Bezier.TriangleRows | nutils/plot.py:188-189 | a triangular size has one row count, and its rows hold exactly the patch |
| Bezier.LayoutExamples | nutils/plot.py:180-194 | 36 points take the 6x6 square, 6 points the 3-row triangle, 5 and 7 points no scheme |
| Bezier.NotSquareOrTriangular | nutils/plot.py:193-194 | a size strictly between consecutive squares and consecutive triangular numbers has no scheme |
| Hull.Remove | nutils/plot.py:175-176 | `pop(index)` drops exactly entry `index`, keeping the others in order |
| Hull.IndexOf | nutils/plot.py:170-173 | `list.index` finds the first matching edge, or raises when there is none |
| Hull.Next | nutils/plot.py:169-174 | a step takes an edge touching the current point to its other end; it prefers the first edge starting at the point, and otherwise takes the first edge ending there; it fails exactly when no edge touches the point |
| Hull.Extend | nutils/plot.py:168-177 | the loop consumes every remaining edge, one step per edge, each joining consecutive points; its only failure is getting stuck |
| Hull.TakeStep | nutils/plot.py:168-177 | one step followed by a walk of the rest is a walk of all edges |
| Hull.Trail | nutils/plot.py:164-178 | on success a closed walk that uses each hull edge exactly once; no edges is an error |
| Hull.FirstStep | nutils/plot.py:164-167 | the popped last edge gives the first two points of the walk |
| Hull.HullWalk | nutils/plot.py:164-178 | on success the hull has one point more than there are edges, is closed and walks every edge exactly once; errors are those of the walk |
| Hull.DegreeRemove | nutils/plot.py:175-176 | removing an edge lowers the degrees of its ends |
| Hull.StepKeepsOddAtEnds | nutils/plot.py:168-177 | after a step, the odd-degree points are the start and the current point |
| Hull.ExtendReturns | nutils/plot.py:168-178 | while the only odd-degree points are the start and the current point, the loop either gets stuck at the start or uses up its edges back at the start |
| Hull.FirstStepOddAtEnds | nutils/plot.py:164-167 | with every degree even, taking the last edge first leaves its two ends as the only odd-degree points |
| Hull.EvenDegreesClose | nutils/plot.py:178 | when every point has even degree, as on a convex hull, the closing assertion cannot fail, and the walk can only get stuck at its start |
| Hull.TriangleExample | nutils/plot.py:164-178 | three hull edges in mixed directions give the walk `0 2 1 0` |
| Hull.StuckExample | nutils/plot.py:172-173 | two separate edges leave the walk stuck |
| Hull.UnclosedExample | nutils/plot.py:178 | a path of edges fails the closing assertion, and no edges fail the first `pop` |
| Assembly.Shift | nutils/plot.py:198 | `vertices + npoints` keeps the number of triangles |
| Assembly.Gather | nutils/plot.py:197-208 | the gathered arrays hold all points and triangles, and one boundary line per patch, in patch order |
| Assembly.GatherKeepsPoints | nutils/plot.py:197-207 | the gathered points and colors are the patches' laid end to end |
| Assembly.GatherPlacesTriangle | nutils/plot.py:198-205 | triangle `c` of patch `i` lands after the triangles of earlier patches, renumbered by their point count |
| Assembly.GatherPlacesPoint | nutils/plot.py:197-204 | point `j` of patch `i` lands after the points of earlier patches |
| Assembly.GatherKeepsTriangle | nutils/plot.py:197-205 | a renumbered triangle names the same points in the gathered array as in its patch |
| Assembly.GatherTriangleOrigin | nutils/plot.py:198-205 | every gathered triangle is a renumbered triangle of some patch |
| Assembly.GatherInRange | nutils/plot.py:198-205 | when each patch numbers only its own points, the gathered triangles number only gathered points |
| Assembly.SizeOfPrefix | nutils/plot.py:202 | `npoints` before patch `i` plus its points stays within the total |
| Assembly.Least | nutils/plot.py:229 | numpy `min`: NaN when any entry is NaN, else a least entry that occurs in the list |
| Assembly.Greatest | nutils/plot.py:230 | numpy `max`: NaN when any entry is NaN, else a greatest entry that occurs in the list |
| Assembly.Bounds | nutils/plot.py:228-232 | limits exist exactly for a non-empty array; each limit is NaN exactly when some point has a NaN in that coordinate, and otherwise is the coordinate of some point; every point lies within them |
| Mesh.Pick | nutils/plot.py:201 | `epoints[hull]` takes the indexed points, and a closed index walk gives a closed line |
| Mesh.MakePatch | nutils/plot.py:161-196 | a patch keeps its points and colors and has a closed boundary; an unknown method fails with its name; every failure is a patch failure; bezier triangles stay inside the patch |
| Mesh.MethodOf | nutils/plot.py:161-196 | the names 'delaunay' and 'bezier' select their schemes exactly, and every other name is an unknown method under that name |
| Mesh.BezierPatch | nutils/plot.py:179-194 | succeeds exactly for square or triangular sizes, otherwise 'cannot match points'; triangles stay inside the patch and the boundary is closed |
| Mesh.LaidOut | nutils/plot.py:183-201 | a laid-out patch keeps its points, colors and triangles, and its boundary is the points along the layout's closed hull |
| Mesh.DelaunayPatch | nutils/plot.py:161-201 | fails when the triangulation fails, when the walk fails, or when the walk names an index outside the patch (`epoints[hull]`); otherwise keeps scipy's triangles and takes the points along the walk as a closed boundary |
| Mesh.Patches | nutils/plot.py:154-202 | succeeds exactly when every patch does, holding them in order; otherwise fails with the error of the first failing patch |
| Results.Collect | nutils/plot.py:154-202 | the loop that stops at the first exception: it succeeds exactly when every item succeeds, and then holds their values in order; otherwise it fails with the error of the first failing item |
| Mesh.FirstErrorIsFirstFailure | nutils/plot.py:154-196 | the first failing result of the loop is a failing patch with every earlier patch succeeding |
| Mesh.PatchesHold | nutils/plot.py:158-201 | each patch of a successful loop has the points and colors of its span and a closed boundary, and bezier triangles stay inside it |
| Mesh.PatchesFailLikeAPatch | nutils/plot.py:161-196 | a failing loop fails with a single patch's error; with an unknown method, with that method's name |
| Mesh.UnknownMethodFails | nutils/plot.py:195-196 | an unknown method fails at the first patch |
| Mesh.Elements | nutils/plot.py:143-208 | the element branch, when it succeeds, has at least one boundary line |
| Mesh.Assemble | nutils/plot.py:154-208 | the assembled patches, when they succeed, have one boundary line per span and at least one |
| Mesh.AssembleKeepsPoints | nutils/plot.py:197-204 | on success the assembled points are the spans' pieces of the points laid end to end |
| Mesh.AssembleKeepsColors | nutils/plot.py:197-207 | on success the assembled points and colors are the spans' pieces of both arrays |
| Mesh.AssembleClosesLines | nutils/plot.py:178-201 | on success every assembled boundary line is closed |
| Mesh.AssembleBezierInRange | nutils/plot.py:179-205 | with bezier layouts the assembled triangles number only assembled points |
| Mesh.AssembleFails | nutils/plot.py:154-208 | fails for want of patches exactly when there are no spans, otherwise only with a patch's error, and always with an unknown method |
| Mesh.ElementsKeepPoints | nutils/plot.py:154-204 | on success the drawn points are exactly the non-blank points, in order |
| Mesh.ElementsCloseLines | nutils/plot.py:178-201 | on success every boundary line is closed |
| Mesh.ElementsBezierInRange | nutils/plot.py:179-205 | with bezier layouts the gathered triangles number only gathered points |
| Mesh.ElementsFail | nutils/plot.py:143-207 | fails with ColorAtBlank exactly on a colored blank point; with nothing to gather exactly when every point is blank; otherwise only with a patch failure; an unknown method fails whenever there is a point |
| Mesh.AssembledFail | nutils/plot.py:154-207 | once the colors pass, assembling fails with nothing to gather exactly when every point is blank, otherwise only with a patch failure, and always with an unknown method |
| Mesh.ElementsKeepColors | nutils/plot.py:158-207 | on success every non-blank point is drawn beside its own color |
| Mesh.SegmentPairs | nutils/plot.py:158-160 | cutting points and colors at the blank points keeps every non-blank point beside its color |
| Mesh.ElementsSegments | nutils/plot.py:154-157 | there are no patches exactly when every point is blank |
| Mesh.GatheredPoints | nutils/plot.py:197-204 | the gathered points are the spans' pieces laid end to end |
| Mesh.GatheredPairs | nutils/plot.py:197-207 | the gathered points and colors are the pieces of both arrays by the same spans |
| Mesh.Finish | nutils/plot.py:215-232 | the triangle collection fails first when there are no triangles (`max` of an empty array); lines are drawn exactly when there are some and the edge color is not 'none'; limits exist exactly with `setxylim`, are the per-axis `min`/`max` of the points (`Bounds`), contain every point, and fail only on an empty array |
| Mesh.Mesh | nutils/plot.py:124-237 | corrected `mesh`: colors of the wrong shape, a grid without colors and another rank fail, in source order; a colored grid is drawn exactly when it has a cell, else fails for want of triangles; a drawn grid has exactly the cell split of the grid, `2(nx-1)(ny-1)` in-range triangles, and no lines; the colors are kept; with `setxylim` the limits are the `Bounds` of the drawn points and contain them |
| Mesh.MeshAsWritten | nutils/plot.py:219-237 | `mesh` as written: a drawn grid with an edge color other than 'none' fails at the return; otherwise it is `Mesh` |
| Mesh.GridWithEdgesFails | nutils/plot.py:130-139 | a colored 2x2 grid with the default edge color fails as written, while the corrected model draws its 2 triangles |
| Mesh.MeshElements | nutils/plot.py:141-237 | flat points end to end: the drawn points are the non-blank points in order, each with its own color, all lines are closed, and the color and empty-input failures are exactly characterised |
| Mesh.MeshOfFlat | nutils/plot.py:141-237 | flat points: a failure of the element branch passes through; a drawing has the branch's points, triangles, colors and boundary lines; a successful branch with no triangles (every patch a single bezier point) fails for want of triangles, and one with triangles can still fail only on the axis limits |
| Mesh.MeshKeepsPoints | nutils/plot.py:141-237 | flat points: the drawn points are the non-blank points in order and every drawn line is closed |
| Mesh.MeshKeepsColors | nutils/plot.py:141-237 | flat points with colors: each non-blank point is drawn beside its own color |
| Mesh.MeshFails | nutils/plot.py:141-208 | flat points: the failure on a colored blank point and the one for want of patches happen exactly in those cases |
| FileIndex.Digit | nutils/plot.py:26 | a digit character for each value below ten |
| FileIndex.Decimal | nutils/plot.py:26 | `str(index)` is a run of digits without a leading zero |
| FileIndex.ValueOfDecimal | nutils/plot.py:24-26 | `int(str(n)) == n` |
| FileIndex.RJust | nutils/plot.py:26 | `rjust`: the length is the larger of width and text, the text is the suffix, the rest is fill |
| FileIndex.LeadingZeros | nutils/plot.py:24-26 | zero padding keeps the digits' value |
| FileIndex.BeforeDot | nutils/plot.py:23 | `split('.')[0]` is the longest dot-free prefix |
| FileIndex.NextIndex | nutils/plot.py:19-25 | the next index is at least 1, above every number in use, and either 1 or one past a number in use |
| FileIndex.PlotName | nutils/plot.py:17-26 | a negative digit count fails; zero digits keep the name; otherwise the name is followed by digits, `ndigits` of them unless the index needs more, that read back as the given index or else the next free one |
| FileIndex.PaddedIndex | nutils/plot.py:26 | `str(i).rjust(ndigits, '0')` after the name is all digits, of the larger of the two widths, and reads back as `i` |
| FileIndex.PlotNameIsFresh | nutils/plot.py:19-26 | with no index given, the new name carries the next index, and no file is named it, with or without an extension |
| FileIndex.NumberOfPadded | nutils/plot.py:22-24 | a name followed by digits carries their value |
| FileIndex.NumberOfExtended | nutils/plot.py:22-24 | the same holds with an extension after the digits |
| FileIndex.NoDotBefore | nutils/plot.py:23 | a dot-free prefix followed by a dot or the end is what comes before the first dot |
| Progress.Log | log.py:10-18 | nothing is written below the level; the message and its end are written otherwise |
| Progress.LogLevelsNest | log.py:4-18 | a verbosity that shows a level shows every lower level |
| Progress.LogMonotone | log.py:13-17 | raising the verbosity never hides a message |
| Progress.Dashes | log.py:61 | `'-' * k` is `max(k, 0)` dashes |
| Progress.DashesAdd | log.py:61-71 | two runs of dashes make one |
| Progress.NewBar | log.py:27-33 | a new bar has no dashes, the whole line width and no end text |
| Progress.Add | log.py:35-39 | `add` takes `len(text)+1` columns and writes the text and a blank at the progress level |
| Progress.AddToEnd | log.py:41-45 | `add_to_end` takes `len(text)+1` columns and appends a blank and the text to the end text |
| Progress.Update | log.py:56-62 | `update` moves the bar to its target only when it is past the bar and within the line, and writes exactly the new dashes |
| Progress.TargetBelowLength | log.py:59-60 | for item `i < n` the target never passes the line and stays below a positive length |
| Progress.TargetMono | log.py:59 | the targets grow with the item |
| Progress.Iterate | log.py:47-62 | `bar` yields the items unchanged and in order, the dashes only grow and stay within the line, and the steps write exactly the gained dashes |
| Progress.IterateReachesLastTarget | log.py:50-62 | over all `n` items a fresh bar ends at `n*length//(n+1)` |
| Progress.IterateAt | log.py:52-62 | after `k` items a fresh bar stands at the target of item `k-1` |
| Progress.Close | log.py:64-71 | the destructor writes the missing dashes, the end text, a blank, the time and a newline |
| Progress.AddFits | log.py:35-39 | `add` keeps the line at exactly `linewidth` columns while its text has room |
| Progress.AddToEndFits | log.py:41-45 | `add_to_end` keeps the line at exactly `linewidth` columns while its text has room |
| Progress.UpdateFits | log.py:56-62 | `update` keeps the line at exactly `linewidth` columns |
| Progress.IterateFits | log.py:47-62 | `bar` keeps the line at exactly `linewidth` columns |
| Progress.CloseFills | log.py:64-71 | closing a fitting bar ends a line of exactly `linewidth` columns plus the time |
| Progress.ProgressBarOf | log.py:73-78 | `progressbar` yields the items unchanged and in order |
| Progress.ProgressLine | log.py:27-78 | a titled bar over its items, closed, fills exactly `linewidth` columns plus the time; bar and close dashes together fill the columns the title leaves |

## Left out

- The triangulation of scipy (`spatial.Delaunay`) is a function parameter. It returns the triangles and the hull edges, or `None` when it fails. Delaunay triangles are not checked to lie inside the patch, since the source trusts scipy. A negative hull index, which numpy's `epoints[hull]` (nutils/plot.py:201) would count from the end, is treated as out of range (`HullOutOfRange`) like an index of at least the patch size; scipy never reports one.
- Floating point: coordinates and colors are exact reals or NaN. The two root tests are modelled by their exact integer meaning (`Roots.QuadSide`, `Roots.TriSide`); rounding of `sqrt` for huge `np` is not modelled.
- Mesh.BezierPatch: for a 3-point patch the source fails in `concatenate` (see the next line), while the model returns a patch of one triangle.
- Bezier.BezierLayout: for a 3-point patch (a triangle of 2 rows) the source's `concatenate` of an empty `vert2` list fails. The model returns the one-triangle layout instead.
- Hull.HullWalk: success for every simple cycle of edges, in any order, is not proved. The model proves only that the closing assertion cannot fire when every degree is even (`Hull.EvenDegreesClose`), and shows success on examples.
- matplotlib: `TriMesh`, `LineCollection`, `set_array`, `set_color`, `add_collection`, `sci`, `xlim`/`ylim` become the returned `Drawn` value. `edgewidth` and `**kwargs` are passed through only to drawing and are left out. `edgecolors` is reduced to whether it is `'none'`.
- The `numeric.isarray` and float-dtype assertions (nutils/plot.py:124, 127) are types in the model. The shape of the colors is their count per point.
- The dump directory listing (`os.listdir`) and `util.prop('dumpdir')` are a parameter of `FileIndex.PlotName`. `isinstance(ndigits, int)` is the type `int`. An explicit index is a natural number.
- FileIndex.IsDigits: `str.isdigit` is modelled for the ASCII digits only, not other Unicode digits.
- `core.getprop('verbose')` and `core.getprop('linewidth')` are parameters. Writing to stdout, flushing and the html writer are left out: the model returns the text written.
- Progress.Target: the item count `n` is a natural number, so an explicit negative `n` passed to `bar(iterable, n)` (log.py:47-51), which divides by zero at `n = -1` (log.py:59), is not modelled. The only caller, `progressbar` (log.py:78), passes `len(iterable)`.
- Progress.Close: the clock (`time.time`) and the formatting of the elapsed time (log.py:67-70) are left out. The formatted time is the parameter `dts`.
- The remaining plotting code (other `PyPlot` and `BasePlot` methods, the vtk and image writers, `HtmlWriter`) is not part of this model.

## Findings

| source | as written | input that shows it | evidently intended | confidence | as-written member | corrected member |
|---|---|---|---|---|---|---|
| nutils/plot.py:219-235 | `linecol` is only assigned when there are boundary lines, but it is returned whenever `edgecolors != 'none'`. The gridded branch sets `edges = None`, so it raises `UnboundLocalError` after drawing | a 2x2 gridded `points` with colors and the default `edgecolors='k'` | return the polygon collection without a line collection when there are no edges | not executed | Mesh.MeshAsWritten | Mesh.Mesh |
