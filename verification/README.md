# Path-finding grid builder

A Dafny model of the grid builder on the path-finding page of the algorithm
visualizer (`generateNewGrid`). The builder allocates a `numRows` x `numCols`
grid of node records and places a start cell at a random coordinate. It then
redraws the end coordinate until it differs from the start. Finally it runs
one wall draw per iteration of a counted loop. Each drawn cell becomes a wall
unless it is the start or the end.

The random draws are inputs:

- the start coordinate;
- the sequence of end candidates that the do-while loop draws in turn;
- one wall coordinate per iteration of the wall loop.

Each draw is already in range. With these inputs the builder is deterministic.

- `Grid.dfy` (module `Grid`) holds the node record (`Node`) and the search
  distance with its infinity sentinel (`Dist`). It defines the grid that
  generation produces (`Generated`, cell by cell through `Cell`), the index of
  the end candidate the loop settles on (`FirstDifferent`) and the number of
  wall-loop iterations (`WallIterations`). It also holds the lemmas about
  every generated grid.
- `PathFindingVisualizer.dfy` (module `PathFindingVisualizer`) holds
  `GenerateNewGrid`, the imperative builder over a two-dimensional array. It
  fills the array with blank records, then sets `isStart`, then runs the
  do-while end loop and then the counted wall loop. Its postcondition states
  that the array, read row by row, is `Generated` applied to the draws.

The node record has only the six fields the code creates (lines 18-25). The
wall loop makes `ceil(rows*cols/5)` draws. Draws that hit the start, the end
or an existing wall are ignored and are not redrawn, so a grid can end up
with fewer walls than draws.

## Model

| member | source | states |
|---|---|---|
| `Grid.WallIterations` | frontend/src/pages/PathFindingVisualizer.jsx:42 | the wall loop `i < numRows*numCols*0.2` runs for the least `k` with `5*k >= numRows*numCols` |
| `Grid.DefaultWallIterations` | frontend/src/pages/PathFindingVisualizer.jsx:9-10 | the default 20 x 20 grid gets 80 wall draws |
| `Grid.FirstDifferent` | frontend/src/pages/PathFindingVisualizer.jsx:34-38 | the do-while loop stops at a candidate that differs from the start, and every earlier candidate equals the start |
| `Grid.Generated` | frontend/src/pages/PathFindingVisualizer.jsx:17-26 | the grid has exactly `numRows` rows and every row has exactly `numCols` cells |
| `Grid.ExactlyOneStart` | frontend/src/pages/PathFindingVisualizer.jsx:29-31 | exactly one cell has `isStart`, namely the cell at the drawn start coordinate |
| `Grid.ExactlyOneEnd` | frontend/src/pages/PathFindingVisualizer.jsx:34-39 | exactly one cell has `isEnd`, namely the cell at the chosen end coordinate |
| `Grid.WallsAreDrawnCells` | frontend/src/pages/PathFindingVisualizer.jsx:42-48 | a cell is a wall if and only if it was drawn and is neither start nor end; undrawn cells stay open and repeated draws add nothing |
| `Grid.WallCountBound` | frontend/src/pages/PathFindingVisualizer.jsx:42-48 | there are no more wall cells than wall draws |
| `Grid.SearchFieldsUntouched` | frontend/src/pages/PathFindingVisualizer.jsx:19-25 | after generation every cell is still unvisited, at distance infinity, with no previous node |
| `Grid.EndLoopCanExit` | frontend/src/pages/PathFindingVisualizer.jsx:35-38 | an in-grid coordinate other than the start exists if and only if `numRows*numCols >= 2`; on a 1 x 1 grid the end loop never exits |
| `Grid.DifferingDrawNeedsTwoCells` | frontend/src/pages/PathFindingVisualizer.jsx:35-38 | if some in-grid end candidate differs from the start, the grid has at least two cells; the end-loop precondition of the builder cannot be met on a 1 x 1 grid |
| `Grid.GeneratedGridInvariants` | frontend/src/pages/PathFindingVisualizer.jsx:16-51 | every generated grid has exactly one start (the drawn one) and exactly one end (the first differing candidate); start and end differ, neither is a wall, and there are at most `WallIterations(numRows*numCols)` walls |
| `PathFindingVisualizer.GenerateNewGrid` | frontend/src/pages/PathFindingVisualizer.jsx:16-51 | the freshly allocated `numRows` x `numCols` array equals `Generated` for the start draw, the first end candidate differing from it, and the wall draws; equivalently, each cell `(r, c)` holds `Cell` for that start, end and wall draws |

## Left out

- The React plumbing is not modelled. This covers the component state, the regeneration effect on size change (lines 8-14), `setGrid` (line 50), `renderGrid` (lines 53-80) and the buttons and navigation (lines 82-97).
- `Math.random()` and `Math.floor` (lines 29-30, 36-37, 43-44) are replaced by caller-supplied integer draws. Each draw is required to lie in `0 <= row < numRows`, `0 <= col < numCols`.
- The float loop bound `numRows * numCols * 0.2` (line 42) is modelled as the integer condition `5*i < numRows*numCols`. In double precision, `n * 0.2` is exactly `n/5` when `n` is a multiple of 5 and lies strictly between two integers otherwise. So the integer condition gives the same iteration count for every grid size. Floating-point arithmetic itself is not modelled.
- `distance: Infinity` is the tagged sentinel `Dist.Inf`, and `previousNode: null` is `Option.None`.
- Node records are values stored in the array cells. Setting a field replaces the cell's value. The source's records are distinct objects reachable only through their cell, so this is not observable. Object identity of the records is not modelled.
- `GenerateNewGrid` requires the start draw to lie inside the grid. On an empty grid the source fails when it indexes the start cell.
- `GenerateNewGrid` requires that some end candidate differs from the start. This is the only condition under which the source's do-while loop terminates. `EndLoopCanExit` and `DifferingDrawNeedsTwoCells` show that such a candidate cannot exist on a 1 x 1 grid.
- The string-matching page, the sorting page, the home page and the router contain no algorithm and are not part of this model. The string-matching handler only toggles a flag around a placeholder. The sorting page only draws a random array.
