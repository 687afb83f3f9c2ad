# Advent of Code 2020 helpers, modelled in Dafny

This project models two parts of the Rust repository, as verified Dafny:

- the shared `aoc` library in `aoc/src/lib.rs`;
- the day-7 puzzle in `07/main.rs`.

From the library it covers:

- **Two-dimensional grids.** The `Grid` trait with its sparse backend (a hash map from points to values) and its dense backend (a vector of rows). The operations modelled are:
  - reading and writing cells, and the extents;
  - the row-major point iterator;
  - horizontal and vertical flips, transpose and the three rotations;
  - flood fill, line drawing, blitting;
  - the eight-orientation iterator.
- **Hexagonal grids.** Cube, axial and odd-r coordinates and the conversions between them, the hex point iterator, and the two offset flips, three axis flips and five rotations of the hash-map hex grid.
- **`grid_to_graph`**, which turns the cells of a grid into a weighted graph.
- **The integer helpers:**
  - `cum_sum`, `range_sum`, `range_sum_inclusive`;
  - `egcd`, `mod_inv`, `chinese_remainder`.
- **`plot_line`**, Bresenham's line algorithm.
- **`DIRECTION_MAP`**, the table of compass names.

From day 7 it covers:

- `sum_bags`, which counts a bag and everything nested in it;
- `part2`, the same count without the outer shiny gold bag;
- `part1`, which counts the rules whose bag can reach a shiny gold bag.

Modules follow the library's structure:

| file | module | models |
|---|---|---|
| `wrappers.dfy` | `Wrappers` | `Option` |
| `geometry.dfy` | `Geometry` | points, cube vectors, direction constants, Rust's truncating `/` and `%` |
| `bounds.dfy` | `Bounds` | least and greatest element of a set (`min()`/`max()` of an iterator) |
| `store.dfy` | `GridStore` | the two grid backends: `get_value`, `set_value`, `extents` |
| `rekey.dfy` | `Rekeying` | the "move every entry to a new key" loop of the sparse and hex transforms |
| `transforms.dfy` | `Transforms` | flips, transpose and rotations as functions of the grid |
| `dense.dfy` | `DenseLoops` | the loops of the dense flips and transpose |
| `rowmajor.dfy` | `RowMajor` | `GridIteratorHelper` and `points()` |
| `fill.dfy` | `FloodFill` | the region `fill` paints |
| `paint.dfy` | `Painting` | what `line`, `blit` and `blit_rect_convert` write |
| `grid.dfy` | `Grids` | `class Grid`: the `&mut self` operations of the `Grid` trait |
| `orient.dfy` | `Orientations` | `GridFlipIteratorHelper` and `transpositions()` |
| `bresenham.dfy` | `Bresenham` | `plot_line` |
| `hex.dfy` | `Hex` | coordinates, `HexGridIteratorHelper`, `class HexGrid` |
| `graph.dfy` | `GraphBridge` | `grid_to_graph` |
| `numbers.dfy` | `Numbers` | `egcd`, `mod_inv`, `chinese_remainder`, `cum_sum`, range sums |
| `compass.dfy` | `Compass` | `DIRECTION_MAP` |
| `bags.dfy` | `Bags` | day 7 |

Where the code works by changing things in place, the model does the same:

- A grid is a `class` whose `store` field the methods replace.
- The loops of `plot_line`, `chinese_remainder`, the dense flips, `fill`, the blits, `grid_to_graph` and `part1` are `while` loops with invariants.
- Each loop is proved against a specification function.
- The properties are lemmas about those functions.

Where the code and a plain reading of its intent differ, the model follows the code:

- `plot_line` is not symmetric in its end points. `Bresenham.LineForward` and `Bresenham.LineBackward` show this on (0,0)–(2,1).
- `DIRECTION_MAP` maps "NE" to the north-west step (see Findings).

## Model

| member | source | states |
|---|---|---|
| Geometry.TruncDivRem | aoc/src/lib.rs:353-363 | Rust's truncating `/` and `%` recombine to the dividend; the remainder is smaller than the divisor and has the dividend's sign |
| Bounds.MinOf | aoc/src/lib.rs:647-653 | the least coordinate of a non-empty set: it belongs to the set and no member is smaller |
| Bounds.MaxOf | aoc/src/lib.rs:647-653 | the greatest coordinate of a non-empty set: it belongs to the set and no member is larger |
| Bounds.MinOfIs | aoc/src/lib.rs:647-653 | the least element is unique: any element no larger than all others is `MinOf` |
| Bounds.MaxOfIs | aoc/src/lib.rs:647-653 | the greatest element is unique |
| GridStore.GetValue | aoc/src/lib.rs:637-643 | sparse: a value exactly for stored points; dense: None at negative coordinates, a value only inside the rows |
| GridStore.SetValue | aoc/src/lib.rs:644-646 | after a write, the cell holds the value if the write takes effect (always for the map, only on an existing cell for the rows); every other cell keeps its value; the backend and row lengths are unchanged |
| GridStore.Extents | aoc/src/lib.rs:647-653 | sparse, non-empty: the tight bounding box of the stored points; sparse, empty: (0,0),(0,0); dense: from (0,0) to (width of the first row − 1, number of rows − 1), or (0,0) when there is no cell |
| GridStore.CellsInsideExtents | aoc/src/lib.rs:711-719 | every stored cell of a sparse grid, or of a rectangular dense grid, lies inside the extents |
| GridStore.StoreExtensionality | aoc/src/lib.rs:637-710 | two grids with the same backend and shape that agree on every cell are equal |
| Rekeying.Rekey | aoc/src/lib.rs:654-665 | moving every entry to `f(key)` with an injective `f`: the new keys are the images and each keeps its value |
| Rekeying.RekeySize | aoc/src/lib.rs:654-665 | an injective re-keying keeps the number of cells |
| Rekeying.RekeyValues | aoc/src/lib.rs:654-665 | an injective re-keying keeps exactly the same values |
| Rekeying.Rekeyed | aoc/src/lib.rs:654-665 | the insertion loop builds `Rekey(m, f)` |
| Transforms.MirrorX | aoc/src/lib.rs:654-665 | `max_x - (x - min_x)`: the column mirrored in the box, the row unchanged |
| Transforms.MirrorY | aoc/src/lib.rs:666-677 | the row mirrored in the box, the column unchanged |
| Transforms.MirroredX | aoc/src/lib.rs:654-665 | sparse horizontal flip: keys are the mirrored keys, each with the value of its original |
| Transforms.MirroredY | aoc/src/lib.rs:666-677 | sparse vertical flip: keys are the mirrored keys, each with the value of its original |
| Transforms.Swapped | aoc/src/lib.rs:678-687 | sparse transpose: keys are the swapped keys, each with the value of its original |
| Transforms.FlippedHorizontal | aoc/src/lib.rs:654-665 | keeps the backend and row lengths, and keeps the grid rectangular (also lib.rs:720-731) |
| Transforms.FlippedVertical | aoc/src/lib.rs:666-677 | keeps the backend and row lengths, and keeps the grid rectangular (also lib.rs:732-743) |
| Transforms.Transposed | aoc/src/lib.rs:678-687 | keeps the backend; a dense result is rectangular, with width and height exchanged (also lib.rs:744-762) |
| Transforms.Rotated90 | aoc/src/lib.rs:441-444 | transpose then horizontal flip: the extents are swapped and the result is rectangular |
| Transforms.Rotated180 | aoc/src/lib.rs:445-448 | vertical then horizontal flip: the same extents and shape |
| Transforms.Rotated270 | aoc/src/lib.rs:449-452 | transpose then vertical flip: the extents are swapped |
| Transforms.FlipHorizontalCell | aoc/src/lib.rs:654-665 | after the flip, a cell inside the extents holds the value of its column mirror; cells outside are as before (also lib.rs:720-731) |
| Transforms.SparseHorizontalCell | aoc/src/lib.rs:654-665 | the same, per cell, for the map mirrored inside a box its points touch |
| Transforms.FlipVerticalCell | aoc/src/lib.rs:666-677 | after the flip, a cell inside the extents holds the value of its row mirror (also lib.rs:732-743) |
| Transforms.SparseVerticalCell | aoc/src/lib.rs:666-677 | the same, per cell, for the map mirrored inside a box its points touch |
| Transforms.TransposeCell | aoc/src/lib.rs:678-687 | after the transpose, a cell inside the swapped extents holds the value at its swapped point; there is nothing outside (also lib.rs:744-762) |
| Transforms.FlipHorizontalExtents | aoc/src/lib.rs:654-665 | the horizontal flip keeps the extents (also lib.rs:720-731) |
| Transforms.FlipHorizontalDenseExtents | aoc/src/lib.rs:720-731 | the dense horizontal flip keeps the extents |
| Transforms.MirroredXExtents | aoc/src/lib.rs:654-665 | mirroring a non-empty map in its own tight box keeps that box |
| Transforms.FlipVerticalExtents | aoc/src/lib.rs:666-677 | the vertical flip keeps the extents (also lib.rs:732-743) |
| Transforms.FlipVerticalDenseExtents | aoc/src/lib.rs:732-743 | the dense vertical flip keeps the extents |
| Transforms.MirroredYExtents | aoc/src/lib.rs:666-677 | mirroring a non-empty map in its own tight box keeps that box |
| Transforms.TransposeExtents | aoc/src/lib.rs:678-687 | the transpose swaps the extents (also lib.rs:744-762) |
| Transforms.TightBoxTouches | aoc/src/lib.rs:647-653 | the tight box holds every point, and points lie on each of its four sides |
| Transforms.MirrorXKeepsBox | aoc/src/lib.rs:654-665 | a box touched on all sides is still touched on all sides after the column mirror |
| Transforms.MirrorYKeepsBox | aoc/src/lib.rs:666-677 | a box touched on all sides is still touched on all sides after the row mirror |
| Transforms.SwapSwapsBox | aoc/src/lib.rs:678-687 | swapping the points swaps the box they touch |
| Transforms.SameTightBox | aoc/src/lib.rs:647-653 | a box the points touch on all sides is their tight box |
| Transforms.MirrorFacts | aoc/src/lib.rs:654-677 | each mirror is its own inverse and keeps points in the box |
| Transforms.FlipHorizontalInvolution | aoc/src/lib.rs:654-665 | flipping horizontally twice gives back the grid (also lib.rs:720-731) |
| Transforms.FlipVerticalInvolution | aoc/src/lib.rs:666-677 | flipping vertically twice gives back the grid (also lib.rs:732-743) |
| Transforms.EmptyOutsideExtents | aoc/src/lib.rs:647-653 | a rectangular grid has no value outside its extents (also lib.rs:711-719) |
| Transforms.TransposeInvolution | aoc/src/lib.rs:678-687 | transposing a rectangular grid twice gives it back (also lib.rs:744-762) |
| Transforms.TurnFacts | aoc/src/lib.rs:441-452 | a quarter turn is a swap and a mirror; two quarter turns are a half-turn reflection; a half turn is its own inverse and keeps points in the box |
| Transforms.Rotate90Cell | aoc/src/lib.rs:441-444 | after `rotate_90_cw`, a cell inside the swapped extents holds the value of the cell it turned from |
| Transforms.Rotate180Cell | aoc/src/lib.rs:445-448 | after `rotate_180_cw`, a cell holds the value of its point reflected through the centre |
| Transforms.Rotate270Cell | aoc/src/lib.rs:449-452 | after `rotate_270_cw`, a cell holds the value of the cell it turned back from |
| Transforms.Rotate90TwiceCell | aoc/src/lib.rs:441-448 | two quarter turns move every value to its point reflected through the centre |
| Transforms.Rotate90TwiceShape | aoc/src/lib.rs:441-448 | two quarter turns give back the backend and row lengths |
| Transforms.Rotate180IsTwice90 | aoc/src/lib.rs:441-448 | `rotate_180_cw` equals two `rotate_90_cw` |
| Transforms.Rotate270IsThrice90 | aoc/src/lib.rs:441-452 | `rotate_270_cw` equals three `rotate_90_cw` |
| Transforms.Rotate90FourTimes | aoc/src/lib.rs:441-444 | four quarter turns give back the grid |
| Transforms.DenseFlipVerticalExample | aoc/src/lib.rs:2032-2040 | the test's dense grid, flipped vertically, is "#   ","####" |
| Transforms.DenseFlipHorizontalExample | aoc/src/lib.rs:2030-2040 | the test's dense grid, flipped horizontally, is "####","   #" |
| Transforms.SparseExampleExtents | aoc/src/lib.rs:2042-2074 | the test's sparse grid spans (−1,0) to (2,1) |
| Transforms.SparseFlipVerticalExample | aoc/src/lib.rs:2042-2074 | `flip_vertical` of the test's map is the expected map: row 0 becomes row 1 and the cell at (−1,1) moves to (−1,0) |
| Transforms.SparseFlipHorizontalExample | aoc/src/lib.rs:2042-2074 | `flip_horizontal` of the test's map is the expected map: the cell at (−1,1) moves to (2,1) and row 0 is unchanged |
| Transforms.VerticalExampleKey | aoc/src/lib.rs:2042-2074 | inside the extents, the row-mirrored cell is in the test map exactly when the cell is in the expected map |
| Transforms.HorizontalExampleKey | aoc/src/lib.rs:2042-2074 | inside the extents, the column-mirrored cell is in the test map exactly when the cell is in the expected map |
| DenseLoops.MirrorRow | aoc/src/lib.rs:720-731 | the first `w` cells of a row are reversed and the rest kept |
| DenseLoops.FlipRowsHorizontal | aoc/src/lib.rs:720-731 | the dense `flip_horizontal` loops produce `DenseFlipH` |
| DenseLoops.CopyPrefix | aoc/src/lib.rs:732-743 | the first `w` cells come from the source row, the rest stay |
| DenseLoops.FlipRowsVertical | aoc/src/lib.rs:732-743 | the dense `flip_vertical` loops produce `DenseFlipV` |
| DenseLoops.WriteColumn | aoc/src/lib.rs:744-762 | column `y` of the first `w` rows takes the source's values; nothing else changes |
| DenseLoops.TransposeRows | aoc/src/lib.rs:744-762 | the dense `transpose` loops produce `DenseTranspose` |
| RowMajor.Successor | aoc/src/lib.rs:406-421 | a step of the iterator inside the box stays in the box and moves forward in row-major order; it ends exactly at the top corner |
| RowMajor.Row | aoc/src/lib.rs:406-421 | a row from `x` to `hiX` has `hiX − x + 1` points |
| RowMajor.WalkIsRows | aoc/src/lib.rs:406-421 | the iterator from `p` yields the rest of `p`'s row, then every later row in full |
| RowMajor.WalkFromLow | aoc/src/lib.rs:431-437 | from the low corner, the iterator yields every point of the box, row by row |
| RowMajor.RowMembers | aoc/src/lib.rs:406-421 | a row holds exactly the points of that row between the two columns |
| RowMajor.RowsMembers | aoc/src/lib.rs:406-421 | the rows from `y` on hold exactly the box points at or below row `y` |
| RowMajor.BoxPointsMembers | aoc/src/lib.rs:431-437 | `points()` yields exactly the points of the box |
| RowMajor.RowIncreasing | aoc/src/lib.rs:406-421 | a row is strictly increasing and its k-th point is (x + k, y) |
| RowMajor.RowsIncreasing | aoc/src/lib.rs:406-421 | the rows are strictly increasing in row-major order |
| RowMajor.IncreasingDistinct | aoc/src/lib.rs:406-421 | no point is yielded twice |
| RowMajor.RowsLength | aoc/src/lib.rs:406-421 | the number of points yielded is width times height |
| RowMajor.BoxPointsProperties | aoc/src/lib.rs:431-437 | `points()` is increasing, has width × height points, and yields exactly the box |
| RowMajor.ExtentsOrdered | aoc/src/lib.rs:647-653 | the low corner of the extents is never above or right of the high corner (also lib.rs:711-719) |
| RowMajor.PointsVisitCells | aoc/src/lib.rs:431-437 | `points()` visits every stored cell of a sparse or rectangular grid |
| RowMajor.PointIterator.constructor | aoc/src/lib.rs:431-437 | starts at the low corner, with the whole walk ahead |
| RowMajor.PointIterator.Next | aoc/src/lib.rs:406-421 | yields the current point and advances; None exactly when nothing remains |
| FloodFill.Cells | aoc/src/lib.rs:453-480 | exactly the points that hold a value |
| FloodFill.Matching | aoc/src/lib.rs:453-480 | exactly the points that hold the given value |
| FloodFill.NeighboursAdjacent | aoc/src/lib.rs:463-474 | every point `fill` pushes is an orthogonal neighbour and stays inside the extents |
| FloodFill.RootedMember | aoc/src/lib.rs:453-480 | everything reached from `pos` lies in every closed set holding `pos` |
| FloodFill.RootedComponent | aoc/src/lib.rs:453-480 | a closed region whose points are all reached from `pos` is the connected component |
| FloodFill.ComponentUnique | aoc/src/lib.rs:453-480 | the component of a point is unique |
| FloodFill.SkipStep | aoc/src/lib.rs:459-461 | popping a point already painted, or of another value, keeps the frontier invariant |
| FloodFill.PaintFrontier | aoc/src/lib.rs:460-476 | painting a popped point and pushing its neighbours keeps the frontier invariant |
| FloodFill.PaintRooted | aoc/src/lib.rs:460-476 | a painted point is reached from `pos`, and fewer matching points stay unpainted |
| FloodFill.FrontierDone | aoc/src/lib.rs:459-477 | when the stack empties, the painted region holds `pos` and is closed |
| FloodFill.PaintCell | aoc/src/lib.rs:460-476 | painting a point extends the painted region by that point |
| Painting.SetAll | aoc/src/lib.rs:481-486 | writing one value along a list of points keeps the shape |
| Painting.SetAllCell | aoc/src/lib.rs:481-486 | afterwards, a point of the list holds the value where the write takes effect, and every other point is unchanged |
| Painting.WritableKept | aoc/src/lib.rs:644-646 | grids of the same shape accept writes at the same points (also lib.rs:703-710) |
| Painting.Clip | aoc/src/lib.rs:531-552 | the clipped box holds exactly the points in both the source's extents and the requested rectangle |
| Painting.Source | aoc/src/lib.rs:531-552 | the target point is `pos` plus the offset of the source point from the corner |
| Painting.Copied | aoc/src/lib.rs:531-552 | a cell changes only where the write takes effect and its source lies inside the copied box |
| Painting.CopiedOntoEmpty | aoc/src/lib.rs:487-505 | blitting a whole grid at its own corner onto an empty map reproduces it |
| Painting.BlitOntoEmptyCopies | aoc/src/lib.rs:487-490 | `blit` at the extents' corner onto an empty map reproduces the source grid |
| Grids.Grid.constructor | aoc/src/lib.rs:424-430 | a grid holding the given cells |
| Grids.Grid.Set | aoc/src/lib.rs:644-646 | `set_value` replaces the grid by `SetValue` (also lib.rs:703-710) |
| Grids.Grid.Points | aoc/src/lib.rs:431-437 | a fresh iterator whose remaining walk covers the extents |
| Grids.Grid.FlipHorizontal | aoc/src/lib.rs:654-665 | the grid becomes `FlippedHorizontal` of the old grid (also lib.rs:720-731) |
| Grids.Grid.FlipVertical | aoc/src/lib.rs:666-677 | the grid becomes `FlippedVertical` of the old grid (also lib.rs:732-743) |
| Grids.Grid.Transpose | aoc/src/lib.rs:678-687 | the grid becomes `Transposed` of the old grid (also lib.rs:744-762) |
| Grids.Grid.Rotate90Cw | aoc/src/lib.rs:441-444 | the grid becomes `Rotated90` of the old grid |
| Grids.Grid.Rotate180Cw | aoc/src/lib.rs:445-448 | the grid becomes `Rotated180` of the old grid |
| Grids.Grid.Rotate270Cw | aoc/src/lib.rs:449-452 | the grid becomes `Rotated270` of the old grid |
| Grids.Grid.Fill | aoc/src/lib.rs:453-480 | with no value at `pos`, or the value already there, nothing changes. Otherwise exactly the component of `pos`'s value reachable through in-extents neighbours is repainted; nothing else changes, and the grid keeps its backend and row lengths |
| Grids.Grid.Flood | aoc/src/lib.rs:457-477 | the stack loop paints exactly the connected component, leaves every other cell as it was, and keeps the grid's shape |
| Grids.Grid.Visit | aoc/src/lib.rs:460-476 | one pop: paints and pushes the in-extents neighbours exactly when the cell holds the old value, keeping the grid's shape |
| Grids.Pushes | aoc/src/lib.rs:463-474 | the pushes of one pop are exactly `Neighbours` |
| Grids.Grid.Line | aoc/src/lib.rs:481-486 | writes the value along every point of `plot_line(a, b)` |
| Grids.Grid.BlitRectConvert | aoc/src/lib.rs:531-552 | every target cell holds the converted source value where one was copied and the write took effect, and its old value otherwise; the shape is unchanged |
| Grids.Grid.CopyRow | aoc/src/lib.rs:544-551 | one row of the copy advances the copied-so-far state by one row |
| Grids.CopiedStep | aoc/src/lib.rs:545-550 | one cell of the copy advances the copied-so-far state by one point |
| Grids.CopiedRowEnd | aoc/src/lib.rs:545-550 | past the end of a row, the copied-so-far state is that of the next row's start |
| Grids.CopiedEnd | aoc/src/lib.rs:544-551 | past the last row, the copied-so-far state is the finished copy |
| Grids.Grid.BlitRect | aoc/src/lib.rs:491-505 | `blit_rect` is `blit_rect_convert` with the identity |
| Grids.Grid.Blit | aoc/src/lib.rs:487-490 | `blit` copies the whole of the source's extents |
| Orientations.Orientation | aoc/src/lib.rs:573-595 | the grid turned `rot` quarter turns, then flipped when `flip`, is still transformable |
| Orientations.Pending | aoc/src/lib.rs:573-595 | the pairs still to be yielded all have rotation ≤ 3 |
| Orientations.PendingStep | aoc/src/lib.rs:573-595 | `next` yields the current pair first, then the one after it |
| Orientations.AllPending | aoc/src/lib.rs:573-595 | a fresh iterator yields (0,no flip), (0,flip), (1,no flip) … (3,flip) |
| Orientations.QuarterFlippedIsTranspose | aoc/src/lib.rs:573-595 | the orientation (1, flipped) is the transpose |
| Orientations.HalfFlippedIsFlipVertical | aoc/src/lib.rs:573-595 | the orientation (2, flipped) is the vertical flip |
| Orientations.FlipIterator.constructor | aoc/src/lib.rs:622-630 | starts at rotation 0, unflipped, with eight orientations to come |
| Orientations.FlipIterator.Next | aoc/src/lib.rs:573-595 | yields a fresh grid holding the next orientation and moves on; None after the eighth |
| Orientations.Oriented | aoc/src/lib.rs:577-587 | a fresh clone turned and flipped to the given orientation |
| Orientations.FreshPending | aoc/src/lib.rs:573-595 | pair i is (i / 2, i odd) |
| Orientations.Transpositions | aoc/src/lib.rs:613-630 | a fresh iterator over a copy of the grid, with all eight orientations ahead |
| Bresenham.Line | aoc/src/lib.rs:1206-1233 | the plotted points start at `a` and end at `b` |
| Bresenham.Trace | aoc/src/lib.rs:1206-1233 | the points from the cursor run from the cursor's position to `b` |
| Bresenham.StartOnTrack | aoc/src/lib.rs:1207-1213 | the initial position and error satisfy the loop invariant |
| Bresenham.NoOvershoot | aoc/src/lib.rs:1220-1230 | before the end, at least one axis moves, and an axis already at its end does not move |
| Bresenham.AdvanceOnTrack | aoc/src/lib.rs:1216-1230 | one loop iteration keeps the invariant |
| Bresenham.ErrSteps | aoc/src/lib.rs:1220-1230 | each x step subtracts `dy` from the error and each y step adds `dx` |
| Bresenham.StepBounds | aoc/src/lib.rs:1220-1230 | the two error tests of one iteration never both fail, and never move past the end |
| Bresenham.AdvanceMoves | aoc/src/lib.rs:1216-1230 | one iteration moves at most one step on each axis, never away from `b`, and shortens the distance left |
| Bresenham.TraceUnfold | aoc/src/lib.rs:1216-1230 | the trace is the current point followed by the trace after one iteration |
| Bresenham.AdvanceAdjacent | aoc/src/lib.rs:1216-1230 | consecutive points are 8-neighbours |
| Bresenham.OnTrackBetween | aoc/src/lib.rs:1216-1230 | every position lies in the box spanned by `a` and `b` |
| Bresenham.TraceSteps | aoc/src/lib.rs:1206-1233 | consecutive points of the trace are neighbours |
| Bresenham.TraceWithin | aoc/src/lib.rs:1206-1233 | the trace stays in the box spanned by `a` and `b` |
| Bresenham.TraceLength | aoc/src/lib.rs:1206-1233 | the trace has at least Chebyshev-distance + 1 and at most Manhattan-distance + 1 points |
| Bresenham.LineProperties | aoc/src/lib.rs:1206-1233 | `plot_line(a, b)` starts at `a`, ends at `b`, moves between 8-neighbours, stays in the box, and has between max(dx,dy)+1 and dx+dy+1 points |
| Bresenham.LineForward | aoc/src/lib.rs:1206-1233 | from (0,0) to (2,1) the middle point is (1,1) |
| Bresenham.LineBackward | aoc/src/lib.rs:1206-1233 | from (2,1) to (0,0) the middle point is (1,0): the line is not symmetric |
| Bresenham.Step | aoc/src/lib.rs:1220-1230 | one loop body computes the next cursor |
| Bresenham.PlotLine | aoc/src/lib.rs:1206-1233 | the loop returns exactly `Line(a, b)` |
| Hex.AxialToCube | aoc/src/lib.rs:1568-1573 | an axial point becomes a valid cube point |
| Hex.CubeToOddr | aoc/src/lib.rs:1581-1585 | the odd-r row is the cube `z` |
| Hex.OddrToCube | aoc/src/lib.rs:1587-1592 | an odd-r point becomes a valid cube point with `z` equal to the row |
| Hex.RowShift | aoc/src/lib.rs:1581-1592 | `(z - z.rem_euclid(2)) / 2` with Rust's truncating `/` is floor(z / 2), also for negative rows |
| Hex.OddrRoundTrip | aoc/src/lib.rs:1581-1592 | odd-r → cube → odd-r gives the point back |
| Hex.CubeOddrRoundTrip | aoc/src/lib.rs:1581-1592 | a valid cube point → odd-r → cube gives the point back |
| Hex.CubeToAxial | aoc/src/lib.rs:1575-1579 | keeps x and z, which rebuilds every valid cube point |
| Hex.AxialRoundTrip | aoc/src/lib.rs:1568-1579 | axial → cube → axial is the identity, as is cube → axial → cube on valid cube points |
| Hex.NegativeRowExample | aoc/src/lib.rs:1587-1592 | odd-r (0,−1) is the north-east neighbour of the origin |
| Hex.NegativeRowWestExample | aoc/src/lib.rs:1581-1585 | the north-west neighbour of the origin is odd-r (−1,−1) |
| Hex.AxialBox | aoc/src/lib.rs:1364-1386 | `axial_extents`: every cell's axial point lies inside, and the box is tight; (0,0),(0,0) when empty |
| Hex.OddrBox | aoc/src/lib.rs:1387-1409 | `oddr_extents`: every cell's odd-r point lies inside, and the box is tight; (0,0),(0,0) when empty |
| Hex.FlipHFacts | aoc/src/lib.rs:1410-1423 | the flipped key's odd-r point is the column mirror of the old one, and flipping twice gives the key back |
| Hex.FlipVFacts | aoc/src/lib.rs:1424-1437 | the flipped key's odd-r point is the row mirror of the old one, and flipping twice gives the key back |
| Hex.FlipHInjective | aoc/src/lib.rs:1410-1423 | the horizontal flip sends different cube keys to different keys |
| Hex.FlipVInjective | aoc/src/lib.rs:1424-1437 | the vertical flip sends different cube keys to different keys |
| Hex.HexFlippedHorizontal | aoc/src/lib.rs:1410-1423 | keeps cube keys, the number of cells and the values |
| Hex.HexFlippedVertical | aoc/src/lib.rs:1424-1437 | keeps cube keys, the number of cells and the values |
| Hex.FlipHorizontalPoints | aoc/src/lib.rs:1410-1423 | the odd-r points after the flip are the old ones mirrored by column in the odd-r extents |
| Hex.FlipHPointsAt | aoc/src/lib.rs:1410-1423 | the same for any mirror box |
| Hex.FlipVerticalPoints | aoc/src/lib.rs:1424-1437 | the odd-r points after the flip are the old ones mirrored by row in the odd-r extents |
| Hex.FlipVPointsAt | aoc/src/lib.rs:1424-1437 | the same for any mirror box |
| Hex.FootprintMirrorX | aoc/src/lib.rs:1410-1423 | mirroring a set of points commutes with the map view of the set |
| Hex.FootprintMirrorY | aoc/src/lib.rs:1424-1437 | mirroring a set of points commutes with the map view of the set |
| Hex.OffsetFlipExtents | aoc/src/lib.rs:1387-1437 | both offset flips keep the odd-r extents |
| Hex.RekeyTwice | aoc/src/lib.rs:1410-1437 | re-keying twice by a self-inverse key map gives the map back |
| Hex.FlipHRekeyTwice | aoc/src/lib.rs:1410-1423 | mirroring twice in the same box gives the map back |
| Hex.FlipVRekeyTwice | aoc/src/lib.rs:1424-1437 | mirroring twice in the same box gives the map back |
| Hex.HexFlipHorizontalTwice | aoc/src/lib.rs:1410-1423 | `flip_horizontal` twice gives back the grid |
| Hex.HexFlipVerticalTwice | aoc/src/lib.rs:1424-1437 | `flip_vertical` twice gives back the grid |
| Hex.RearrangedFacts | aoc/src/lib.rs:1438-1565 | each coordinate permutation keeps cube points valid and is undone by its inverse |
| Hex.RearrangedNorm | aoc/src/lib.rs:1438-1565 | each permutation keeps the hex distance from the pivot |
| Hex.RearrangedLinear | aoc/src/lib.rs:1438-1565 | each permutation commutes with vector subtraction |
| Hex.Rot60Powers | aoc/src/lib.rs:1486-1565 | `rotate_60_cw`'s rearrangement applied twice, three, four and five times is the 120, 180, 240 and 300 degree one; six times is the identity |
| Hex.Rot60DirectionsSouth | aoc/src/lib.rs:1486-1501 | 60° clockwise sends `HEX_E` to `HEX_SE`, `HEX_SE` to `HEX_SW`, `HEX_SW` to `HEX_W` |
| Hex.Rot60DirectionsNorth | aoc/src/lib.rs:1486-1501 | 60° clockwise sends `HEX_W` to `HEX_NW`, `HEX_NW` to `HEX_NE`, `HEX_NE` to `HEX_E` |
| Hex.Pivot | aoc/src/lib.rs:1439-1442 | the pivot computed from the odd-r extents is a valid cube point |
| Hex.TurnKeyFacts | aoc/src/lib.rs:1438-1565 | moving about the pivot keeps cube points valid, keeps distances, and the inverse move undoes it |
| Hex.TurnKeyInjective | aoc/src/lib.rs:1438-1565 | no two cells collide under a move |
| Hex.Turned | aoc/src/lib.rs:1438-1565 | an axis flip or rotation keeps the number of cells and the values, and keeps cube keys |
| Hex.TurnRekeyFacts | aoc/src/lib.rs:1438-1565 | the same, for any cube pivot |
| Hex.Cubes | aoc/src/lib.rs:1244-1259 | the hex iterator yields one cube point per axial point |
| Hex.CubesMember | aoc/src/lib.rs:1244-1259 | every walked axial point's cube point is yielded |
| Hex.HexPointsVisitCells | aoc/src/lib.rs:1272-1278 | `points()` yields every valid cube cell of the grid |
| Hex.HexPointIterator.constructor | aoc/src/lib.rs:1272-1278 | starts at the low axial corner with the whole walk ahead |
| Hex.HexPointIterator.Next | aoc/src/lib.rs:1244-1259 | yields the cube point of the current axial point and advances; None exactly when nothing remains |
| Hex.HexGrid.constructor | aoc/src/lib.rs:1350-1360 | a hex grid holding the given cells |
| Hex.HexGrid.GetValue | aoc/src/lib.rs:1354-1360 | the stored value at `pos`, and None exactly for positions with no cell |
| Hex.HexGrid.SetValue | aoc/src/lib.rs:1361-1363 | the cell holds the value, every other cell is unchanged, and the key set grows by the point |
| Hex.HexGrid.Points | aoc/src/lib.rs:1272-1278 | a fresh iterator over the axial extents |
| Hex.HexGrid.FlipHorizontal | aoc/src/lib.rs:1410-1423 | the cells become `HexFlippedHorizontal` of the old cells |
| Hex.HexGrid.FlipVertical | aoc/src/lib.rs:1424-1437 | the cells become `HexFlippedVertical` of the old cells |
| Hex.HexGrid.MoveAboutPivot | aoc/src/lib.rs:1438-1565 | the shared loop: every cell moved by the given permutation about the pivot |
| Hex.HexGrid.FlipX | aoc/src/lib.rs:1438-1453 | y and z swapped about the pivot |
| Hex.HexGrid.FlipY | aoc/src/lib.rs:1454-1469 | x and z swapped about the pivot |
| Hex.HexGrid.FlipZ | aoc/src/lib.rs:1470-1485 | x and y swapped about the pivot |
| Hex.HexGrid.Rotate60Cw | aoc/src/lib.rs:1486-1501 | `[-z, -x, -y]` about the pivot |
| Hex.HexGrid.Rotate120Cw | aoc/src/lib.rs:1502-1517 | the 120° permutation about the pivot |
| Hex.HexGrid.Rotate180Cw | aoc/src/lib.rs:1518-1533 | the 180° permutation about the pivot |
| Hex.HexGrid.Rotate240Cw | aoc/src/lib.rs:1534-1549 | the 240° permutation about the pivot |
| Hex.HexGrid.Rotate300Cw | aoc/src/lib.rs:1550-1565 | the 300° permutation about the pivot |
| GraphBridge.DirectionsFor | aoc/src/lib.rs:267-271 | 4 or 8 gives that many directions; any other number is the panic |
| GraphBridge.Weight | aoc/src/lib.rs:284-288 | an edge weight exists only between two accepted cells, the second inside the extents |
| GraphBridge.CoveredGrows | aoc/src/lib.rs:276-299 | a point's node and edges stay in the graph as it grows |
| GraphBridge.StepFacts | aoc/src/lib.rs:283-294 | one direction keeps the graph sound, only adds to it, and adds the edge it has a weight for |
| GraphBridge.StepsFacts | aoc/src/lib.rs:282-295 | all directions of a point keep the graph sound and add every weighted edge |
| GraphBridge.VisitFacts | aoc/src/lib.rs:279-296 | visiting a point adds it when accepted, and all its weighted edges |
| GraphBridge.RowPrefixFacts | aoc/src/lib.rs:277-298 | a row prefix covers each visited point |
| GraphBridge.RowsPrefixFacts | aoc/src/lib.rs:276-299 | the finished rows cover every point above the current row |
| GraphBridge.BuiltGraph | aoc/src/lib.rs:258-302 | the nodes are exactly the accepted cells inside the extents; every weighted step between them is an edge; every edge is such a step |
| GraphBridge.LaterWeightWins | aoc/src/lib.rs:290 | re-adding an edge in the other direction overwrites its weight |
| GraphBridge.AddSteps | aoc/src/lib.rs:282-295 | the loop over the directions computes `Steps` |
| GraphBridge.AddRow | aoc/src/lib.rs:277-298 | the loop over a row computes `RowPrefix` |
| GraphBridge.GridToGraph | aoc/src/lib.rs:258-302 | None exactly on a direction count other than 4 or 8; otherwise the graph `Built` describes |
| Numbers.DividesCombination | aoc/src/lib.rs:353-363 | a common divisor divides every integer combination |
| Numbers.BezoutStep | aoc/src/lib.rs:353-363 | one recursion step of `egcd` keeps the Bezout identity |
| Numbers.Egcd | aoc/src/lib.rs:353-363 | the coefficients satisfy `a*x + b*y == g` |
| Numbers.EgcdDivides | aoc/src/lib.rs:353-363 | `g` divides both arguments |
| Numbers.EgcdGreatest | aoc/src/lib.rs:353-363 | every common divisor divides `g` |
| Numbers.EgcdNonNegative | aoc/src/lib.rs:353-363 | on non-negative arguments `g` is non-negative, and zero only when both are |
| Numbers.EgcdZeroRight | aoc/src/lib.rs:353-363 | `egcd(x, 0)` reports `x` as the gcd |
| Numbers.TruncRemCongruent | aoc/src/lib.rs:365-375 | `a % n` differs from `a` by a multiple of `n` |
| Numbers.ModInv | aoc/src/lib.rs:365-375 | an inverse exactly when `egcd` reports gcd 1; then `x * r ≡ 1 (mod n)` and `r` lies between 0 and `n` |
| Numbers.ModInvCorrect | aoc/src/lib.rs:365-375 | `(s % n + n) % n` of a Bezout coefficient is an inverse in range |
| Numbers.ShiftedCongruent | aoc/src/lib.rs:365-375 | shifting the coefficient by a multiple of `n` keeps it an inverse |
| Numbers.ProductNonZero | aoc/src/lib.rs:386 | the product of the moduli is non-zero exactly when no modulus is zero |
| Numbers.FirstZero | aoc/src/lib.rs:390-391 | the number of zipped pairs the loop can divide by before it meets a zero modulus: all moduli before it are non-zero, and the one at it is zero |
| Numbers.CrtPartial | aoc/src/lib.rs:390-393 | the running sum after `n` pairs exists exactly when the partial product of each of those pairs is invertible modulo its modulus |
| Numbers.Crt | aoc/src/lib.rs:377-396 | on inputs where the source does not panic: a result only when no modulus is zero, and then smaller in magnitude than the product |
| Numbers.ChineseRemainder | aoc/src/lib.rs:377-396 | on every input where the source does not panic, including zero moduli, the loop returns `Crt(rs, ms)` |
| Numbers.CrtNone | aoc/src/lib.rs:377-396 | with non-zero moduli it never panics, and it returns None exactly when some used modulus's partial product has no inverse |
| Numbers.ZeroInvertible | aoc/src/lib.rs:365-375 | `mod_inv(0, m)` succeeds only for `m == 1`, since `egcd(0, m)` reports `m` |
| Numbers.CrtZeroModulus | aoc/src/lib.rs:386-395 | with a zero modulus the source panics exactly when every modulus before the first zero one is 1; otherwise it returns None |
| Numbers.CrtZeroModulusExample | aoc/src/lib.rs:390-392 | `chinese_remainder(&[1], &[3, 0])` returns None without panicking |
| Numbers.CrtPanicExamples | aoc/src/lib.rs:390-395 | `chinese_remainder(&[1], &[0])` divides by zero and `chinese_remainder(&[1], &[1, 0])` reduces modulo a zero product |
| Numbers.ProductExample | aoc/src/lib.rs:2023-2027 | 3·5·7 = 105 |
| Numbers.ModInvExample3 | aoc/src/lib.rs:2023-2027 | `mod_inv(35, 3)` is 2 |
| Numbers.ModInvExample5 | aoc/src/lib.rs:2023-2027 | `mod_inv(21, 5)` is 1 |
| Numbers.ModInvExample7 | aoc/src/lib.rs:2023-2027 | `mod_inv(15, 7)` is 1 |
| Numbers.CrtExampleStep1 | aoc/src/lib.rs:2023-2027 | after the first pair the sum is 140 |
| Numbers.CrtExampleStep2 | aoc/src/lib.rs:2023-2027 | after the second pair the sum is 203 |
| Numbers.CrtExampleStep3 | aoc/src/lib.rs:2023-2027 | after the third pair the sum is 233 |
| Numbers.CrtExample | aoc/src/lib.rs:2023-2027 | `chinese_remainder([2,3,2], [3,5,7])` is 23 |
| Numbers.ProductSplit | aoc/src/lib.rs:386 | the product is one modulus times the product of the others |
| Numbers.ProductHasFactor | aoc/src/lib.rs:386 | every modulus divides the product |
| Numbers.TruncDivExact | aoc/src/lib.rs:391 | `prod / m_i` is exactly the product of the other moduli |
| Numbers.CoprimeProduct | aoc/src/lib.rs:391-392 | a product of numbers coprime to `m` is coprime to `m` |
| Numbers.CoprimeEgcd | aoc/src/lib.rs:365-375 | for coprime positive arguments `egcd` reports 1 |
| Numbers.PartialProductInvertible | aoc/src/lib.rs:391-392 | for pairwise-coprime positive moduli every `mod_inv(prod / m_i, m_i)` succeeds |
| Numbers.OtherModulusDivides | aoc/src/lib.rs:391-392 | every other modulus divides `prod / m_j` |
| Numbers.CrtPartialStep | aoc/src/lib.rs:390-393 | under the theorem's assumptions each iteration adds `r_i * inv * (prod / m_i)` |
| Numbers.CongruenceStep | aoc/src/lib.rs:392 | adding a term keeps the running sum congruent to the residues added so far |
| Numbers.CrtPartialSome | aoc/src/lib.rs:390-393 | under the theorem's assumptions no iteration fails, and non-negative residues keep the sum non-negative |
| Numbers.CrtPartialCongruent | aoc/src/lib.rs:390-393 | after `n` pairs the sum is congruent to `r_i` modulo each `m_i` with `i < n`, and to 0 modulo the rest |
| Numbers.CrtCorrect | aoc/src/lib.rs:377-396 | for positive, pairwise-coprime moduli the result exists and is congruent to each residue modulo its modulus; with non-negative residues it lies in [0, product) |
| Numbers.ReduceKeepsCongruence | aoc/src/lib.rs:395 | the final `sum % prod` keeps every congruence |
| Numbers.Scan | aoc/src/lib.rs:326-333 | the running totals have the input's length |
| Numbers.ScanIsPrefixSum | aoc/src/lib.rs:326-333 | running total i is the start plus the sum of a[..=i] |
| Numbers.CumSum | aoc/src/lib.rs:326-333 | element i is the sum of a[..=i] |
| Numbers.RangeSumInclusive | aoc/src/lib.rs:335-343 | 0 when `b < a`; otherwise the difference of the prefix sums at `b` and `a - 1`, or the prefix sum at `b` when `a == 0` |
| Numbers.RangeSum | aoc/src/lib.rs:345-351 | 0 when `b ≤ a`; otherwise the inclusive range up to `b - 1` |
| Numbers.RangeSumInclusiveIsSum | aoc/src/lib.rs:335-343 | on prefix sums, `range_sum_inclusive(a, b)` is the sum of v[a..=b], and 0 when b < a |
| Numbers.RangeSumIsSum | aoc/src/lib.rs:345-351 | on prefix sums, `range_sum(a, b)` is the sum of v[a..b], and 0 when b ≤ a |
| Compass.DirectionAsWritten | aoc/src/lib.rs:119-135 | every entry of the table as written is a unit step to one of the eight neighbours |
| Compass.Direction | aoc/src/lib.rs:119-135 | every entry of the corrected table is a unit step to one of the eight neighbours |
| Compass.NorthEastMisplaced | aoc/src/lib.rs:131 | the table as written gives "NE" the step of "NW", not the step the name spells |
| Compass.NorthEastUnreached | aoc/src/lib.rs:118-135 | no key of the table as written reaches the north-east neighbour |
| Compass.DirectionSpelled | aoc/src/lib.rs:118-135 | in the corrected table every key's step is the sum of its letters' steps |
| Compass.AsWrittenAgreesElsewhere | aoc/src/lib.rs:118-135 | the table as written agrees with the corrected one on every key but "NE" |
| Compass.DirectionCoversNeighbours | aoc/src/lib.rs:113-135 | N, NE, E, SE, S, SW, W, NW of the corrected table are `DIRECTIONS_INCL_DIAGONALS` in order |
| Bags.FirstRuleFromFinds | 07/main.rs:24-32 | the scan from `k` finds nothing exactly when no later rule has the name, and otherwise finds the first such rule |
| Bags.FirstRule | 07/main.rs:24-32 | None exactly when no rule has the name; otherwise the index of the first rule with it |
| Bags.FirstRuleAt | 07/main.rs:24-32 | a rule with the name and none before it is the one `sum_bags` uses |
| Bags.SumBags | 07/main.rs:23-34 | a bag with no rule counts 0; a bag with a rule counts at least 1, itself |
| Bags.SumContents | 07/main.rs:27-29 | empty contents add nothing |
| Bags.SumBagsSingle | 07/main.rs:26-30 | a bag with one content counts 1 + count × the content's total |
| Bags.SumBagsPair | 07/main.rs:26-30 | a bag with two contents counts 1 + both weighted totals |
| Bags.Part2 | 07/main.rs:36-39 | defined exactly when `sum_bags` of shiny gold is; −1 with no shiny gold rule, otherwise at least 0 |
| Bags.MixedLeafRules | 07/main.rs:80-91 | the lookup of the leaf bags in the first test's rules |
| Bags.MixedInnerRules | 07/main.rs:80-91 | the lookup of the inner bags in the first test's rules |
| Bags.MixedPart2 | 07/main.rs:78-93 | the first test's answer is 32 |
| Bags.ChainLowerRules | 07/main.rs:97-106 | the lookup of the lower bags in the chain test's rules |
| Bags.ChainMiddleRules | 07/main.rs:97-106 | the lookup of the middle bags in the chain test's rules |
| Bags.ChainUpperRules | 07/main.rs:97-106 | the lookup of the upper bags in the chain test's rules |
| Bags.ChainPart2 | 07/main.rs:95-108 | the chain test's answer is 126 |
| Bags.SumBagsTerminates | 07/main.rs:23-34 | when the bags can be ranked so that contents sit lower than their container, `sum_bags` returns |
| Bags.SumContentsTerminates | 07/main.rs:27-29 | the same for the contents loop |
| Bags.SumBagsFuelIrrelevant | 07/main.rs:23-34 | once `sum_bags` returns, a deeper bound gives the same answer |
| Bags.SumContentsFuelIrrelevant | 07/main.rs:27-29 | the same for the contents loop |
| Bags.SelfContainedDiverges | 07/main.rs:23-34 | a bag whose first rule contains the bag itself never returns |
| Bags.ContentsNoneFrom | 07/main.rs:27-29 | a content that never returns makes its container never return |
| Bags.FirstRuleShadowed | 07/main.rs:24-32 | rules whose names already appear earlier never change the lookup |
| Bags.SumBagsShadowed | 07/main.rs:23-34 | nor the count |
| Bags.SumContentsShadowed | 07/main.rs:27-29 | nor the contents' count |
| Bags.Successors | 07/main.rs:4-11 | the successors of a set of bags are names the rules mention |
| Bags.SuccessorsEdge | 07/main.rs:4-11 | `b` is a successor exactly when a bag of the set has a contain-edge to it |
| Bags.Closure | 07/main.rs:15 | the search's visited set holds the start and is closed under successors |
| Bags.ReachesStep | 07/main.rs:15 | a walk followed by an edge is a walk |
| Bags.SuccessorsReached | 07/main.rs:15 | one round of successors stays reachable from the start |
| Bags.ClosureSound | 07/main.rs:15 | everything the search visits is reachable from the start |
| Bags.ClosedHoldsPath | 07/main.rs:15 | a set closed under successors holds the end of every walk starting in it |
| Bags.HasPathSound | 07/main.rs:15 | what `has_path_connecting` finds is reachable |
| Bags.HasPath | 07/main.rs:15 | a bag always reaches itself |
| Bags.HasPathReaches | 07/main.rs:15 | `has_path_connecting(a, b)` holds exactly when `b` is reachable from `a` along contain-edges |
| Bags.CountReaching | 07/main.rs:12-20 | the count over the first `n` rules is at most `n` |
| Bags.CountedSetStep | 07/main.rs:13-19 | each rule adds its own index exactly when it is counted |
| Bags.CountReachingIsCount | 07/main.rs:12-20 | the count is the number of rules that are not shiny gold and reach it |
| Bags.Part1 | 07/main.rs:3-21 | the loop returns the number of rule entries whose bag is not shiny gold and reaches shiny gold |

## Left out

- **Not modelled, with the reason:**
  - Input parsing, both day-7 `parse` and the library's line and string helpers: text I/O.
  - The `RgbImage` grid and the drawing back ends: image and terminal I/O.
  - `astar`, and the `GraphMap` type itself: foreign library calls. The graph is modelled as a set of nodes and a map from edge to weight.
- Integer width: the source's `i64` and `usize` arithmetic is modelled on unbounded integers, so overflow is not modelled. The same holds for `egcd`, `mod_inv`, `chinese_remainder`, `plot_line` and `sum_bags`.
- Hash-map order:
  - The sparse transforms clear the map and re-insert the entries. The model states the resulting map, not the insertion order.
  - Iteration order of `HashMap` is not modelled. Where the order matters, the model requires that no two keys collide.
- Grids.Grid.Transpose: the dense `transpose` fills new rows with `T::default()` before overwriting every cell. The model takes the filler as a parameter.
- Grids.Grid.FlipHorizontal: the dense transforms index `self[0]` and every row up to the first row's width. So they are modelled only on dense grids with a non-empty first row and no shorter row (`DenseShaped`), where the source does not panic. The same holds for Grids.Grid.FlipVertical, Grids.Grid.Transpose and the rotations.
- Transforms.TransposeInvolution: the dense identities need rows of equal length (`Rectangular`). On a ragged grid the source drops the extra cells. The same restriction applies to Transforms.Rotate90FourTimes, Transforms.Rotate180IsTwice90 and Transforms.Rotate270IsThrice90.
- Grids.Grid.BlitRect: the trait's `blit_rect` repeats the body of `blit_rect_convert`. It is modelled as `blit_rect_convert` with the identity conversion.
- Hex.HexGrid.FlipHorizontal: requires every key to be a valid cube point. Other keys can collide after the offset round trip, and the result then depends on map order. The same holds for Hex.HexGrid.FlipVertical.
- Hex.HexGrid.Rotate60Cw: the pivot is recomputed from the current odd-r extents on each call. The model proves six 60° rearrangements compose to the identity (`Hex.Rot60Powers`), but not that six calls give back the grid.
- The commented-out hex `fill` and `blit` are not part of this model.
- Bags.SumBags: the source recursion does not terminate on rules that nest a bag in itself. The model bounds the depth by a `fuel` argument and answers None when it runs out. `Bags.SumBagsTerminates` and `Bags.SumBagsFuelIrrelevant` show the bound does not matter on terminating inputs.
- Bags.HasPathReaches: `has_path_connecting` is a library graph search. It is modelled by the fixed point of successors over the contain-edges, and proved equal to reachability.
- GraphBridge.GridToGraph: the source panics on a direction count other than 4 or 8. The model returns None there.
- Orientations.Transpositions: `into_transpositions` builds the same iterator from an owned grid. It is modelled by this one member.
- Numbers.ModInv: with `n == 0` and `x == 1` the source computes `x % 0` and panics. The model's `requires` excludes exactly that input.
- Numbers.ChineseRemainder: the source panics when the loop reaches a zero modulus (`prod / modulus`), and when every pair succeeds but the product is 0 (`sum % prod`). The model's `requires` (`!CrtPanics`) excludes exactly those inputs; zero moduli that lead to None, such as `chinese_remainder(&[1], &[3, 0])`, are modelled. The same holds for Numbers.Crt.
- Numbers.RangeSumInclusive: indexing past the end of `cum_sum` panics in the source. The model's `requires` excludes exactly those indices. The same holds for Numbers.RangeSum.
- Numbers.ModInv: `egcd` can report a gcd of −1, for example `mod_inv(-1, 3)`. The source then answers None although −1 has an inverse modulo 3. The model keeps that behaviour.

## Findings

| source | as written | input that shows it | evidently intended | confidence | as-written member | corrected member |
|---|---|---|---|---|---|---|
| aoc/src/lib.rs:131 | `DIRECTION_MAP` inserts "NE" with the `NORTH_WEST` step, the same as "NW" | looking up "NE" gives (−1,−1) instead of (1,−1) | "NE" maps to `NORTH_EAST`, as every other key maps to the step its letters spell | high, not executed | Compass.NorthEastMisplaced | Compass.DirectionSpelled |
