# Maze generator model

A Dafny model of the maze generator in `index.js` from the canvas maze game.
The game builds a square maze of `cells` by `cells` cells. It keeps three
boolean matrices:

- `grid`: which cells have been visited.
- `horizontals`: which walls between a cell and the cell below it are open.
- `verticals`: which walls between a cell and the cell to its right are open.

Generation is a randomised recursive backtracker, `stepThroughCell`, started
from a random cell. It marks the cell visited and shuffles the cell's four
neighbours with `shuffleArray`. Then, for each neighbour in that order, if the
neighbour is inside the grid and not yet visited, it opens the wall between
the two and recurses into the neighbour. The game first places four boundary
rectangles (index.js:25-40), then generates the maze (index.js:42-122), then
places one rectangle for every wall entry that stayed closed
(index.js:125-158).

The model keeps the source's form:

- `Shuffle.ShuffleArray` is an in-place loop over an `array`.
- `Generator.Maze` is a class holding the three matrices as `array2<bool>`.
- `StepThroughCell` is a recursive method; its neighbour loop is the method
  `VisitNeighbors`, and one round of that loop is `CarveToward`.
- The perimeter and the wall-emission loops are pure functions over row-by-row
  snapshots of the wall matrices (`Generator.Rows`).

Ghost state ties the arrays to what the algorithm builds:

- `visited`, `openH` and `openV` are the sets of `true` entries of the three
  matrices.
- `parent` and `depth` record, for every carved cell, the cell it was carved
  from and how many carving steps separate it from the start cell.

What is proved about the generator:

- The shuffle is a permutation of its input.
- A call on an already-visited cell changes nothing.
- No matrix entry ever goes back to `false`.
- Every wall write is inside its matrix.
- The open walls always form a tree over the visited cells, with one wall
  fewer than cells.
- Every cell a call visits ends with all its neighbours visited.
- Generation from the start cell therefore terminates, visits every cell, and
  leaves a spanning tree of `cells * cells - 1` open walls, every cell
  reachable from the start.

What is proved about the layout:

- A rectangle is emitted exactly for each closed entry, at the source's
  coordinates.
- There are `2 * cells * (cells - 1) - (cells * cells - 1)` internal
  rectangles after generation (121 for the source's 12 by 12 grid).
- Every wall of every cell that faces the outside or stays closed lies under a
  rectangle.

Modules:

- `Matrix`: positions, counting entries of a boolean matrix, and the set of
  marked positions.
- `Grid`: directions, adjacency, open-wall paths, the tree predicates, and the
  closure argument.
- `Shuffle`: the in-place shuffle.
- `Generator`: the maze class, and the whole build.
- `Layout`: the rectangles and their geometry.

## Model

| member | source | states |
|---|---|---|
| Shuffle.ShuffleArray | index.js:43-53 | Shuffles the array in place and returns that same array; whatever index each round picks below `counter`, the result is a permutation (same multiset) of the input. |
| Generator.Neighbors | index.js:78-83 | The candidate list has four entries, one per direction, and each leads to the cell one step away in its direction. |
| Generator.ShuffledNeighbors | index.js:78-83 | Builds a fresh four-entry array holding the up, right, down, left candidates in some order: a permutation of the source's list. |
| Generator.ShuffledNeighborsCovered | index.js:86-119 | Once every in-grid entry of the shuffled list is visited, every in-grid neighbour of the cell is: the shuffle loses no direction. |
| Generator.Maze.constructor | index.js:55-65 | The three matrices have shapes `cells x cells`, `cells x (cells - 1)` and `(cells - 1) x cells`, every entry `false`; nothing visited, no wall open. |
| Generator.Maze.MarkVisited | index.js:75 | Sets the cell's `grid` entry; the visited set grows by exactly that cell. |
| Generator.Maze.OpenWall | index.js:102-115 | Left and right write `verticals`, up and down write `horizontals`, at the entry between the two cells, always inside the matrix; the open sets grow by exactly that entry. |
| Generator.Maze.StepThroughCell | index.js:70-120 | On an already-visited cell nothing changes. Otherwise, on return: the cell is visited; no entry was reset; the open walls still form a tree over the visited cells; every cell this call visited has all its in-grid neighbours visited. Terminates. |
| Generator.Maze.VisitNeighbors | index.js:86-119 | After the loop over the shuffled list: every in-grid neighbour of the cell is visited, the tree is kept, nothing was reset, and every cell visited during the loop is closed. |
| Generator.Maze.CarveToward | index.js:88-118 | A candidate outside the grid or already visited is skipped: the three matrices and the visited and open sets are unchanged. Otherwise the shared wall is open afterwards and carving recursed into it. Either way an in-grid candidate ends visited and the tree is kept. |
| Generator.Maze.Generate | index.js:67-122 | From all-`false` matrices and any start cell, generation visits every cell (the grid is all `true`) and leaves a spanning tree rooted at the start, with `cells * cells - 1` open walls, which is the number of `true` entries across both wall matrices. |
| Generator.Maze.CompleteCounts | index.js:55-122 | With every cell visited and one open wall fewer than cells, the grid matrix is all `true`, and the wall matrices hold `cells * cells - 1` `true` entries. |
| Generator.Maze.MarkedMatrices | index.js:55-65 | The ghost sets are exactly the `true` positions of the matrices, read row by row. |
| Generator.Build | index.js:25-158 | The bodies are the four boundary rectangles followed by the internal wall rectangles of the generated maze, at unit `600 / cells`; their number is `4 + 2 * cells * (cells - 1) - (cells * cells - 1)`. Every cell is visited, and the open walls form a spanning tree rooted at the returned start cell. |
| Generator.BuildField | index.js:4-7 | For the source's 600 by 600 field with 12 cells of 50 units, there are 125 bodies, of which 121 are internal walls, and the maze is a spanning tree of all 144 cells. |
| Grid.OpenH | index.js:109-114 | Opening an up or down wall only adds an entry to the open horizontal set. |
| Grid.OpenV | index.js:103-108 | Opening a left or right wall only adds an entry to the open vertical set. |
| Grid.OpenLinks | index.js:102-115 | The entry written for direction `d` links the cell and its neighbour in that direction. |
| Grid.StartTree | index.js:122 | The start cell alone, with no open walls, is a tree. |
| Grid.GrowTree | index.js:99-118 | Opening the wall from a tree cell to an unvisited in-grid neighbour, and adding that neighbour as its child, gives a tree of the larger set: one more cell, one more open wall. |
| Grid.GrowWalls | index.js:102-115 | That wall was closed, so the open-wall count grows by exactly one, and every open wall still joins two cells of the set. |
| Grid.GrowParents | index.js:118 | The new cell's parent is the cell it was carved from, one level closer to the start; all other parents are kept. |
| Grid.TreeReaches | index.js:118-122 | Following parents leads back to the start cell, so every cell of a tree is reachable from the start through open walls. |
| Grid.TreeSpans | index.js:99-122 | A tree with parents and depths is a spanning tree of its cells: connected, with one open wall fewer than cells. |
| Grid.Spread | index.js:86-99 | In a set of cells that holds every in-grid neighbour of each of its members, every cell of the grid reachable by steps from a member belongs to the set. |
| Grid.ClosedSetIsGrid | index.js:86-122 | A non-empty set of cells closed under in-grid neighbours is the whole grid, so generation visits every cell. |
| Layout.Perimeter | index.js:25-38 | Four boundary rectangles: top and bottom centred at `(width / 2, 0)` and `(width / 2, height)`, `width x 40`; left and right centred at `(0, height / 2)` and `(width, height / 2)`, `40 x height`. |
| Layout.PerimeterCoversBoundary | index.js:25-38 | Every point on the edge of an even-sized field lies inside one of the four boundary rectangles. |
| Layout.WallRect | index.js:129-155 | A horizontal entry `(i, j)` gives a `u` by 10 rectangle on the line `y = (i + 1) * u`, spanning `j * u` to `(j + 1) * u` when `u` is even: the bottom edge of cell `(i, j)`. A vertical entry gives a 10 by `u` rectangle on `x = (j + 1) * u`, spanning `i * u` to `(i + 1) * u`: the cell's right edge. |
| Layout.RowRects | index.js:126-140 | One rectangle per closed (`false`) entry of the row. |
| Layout.MatrixRects | index.js:125-158 | One rectangle per closed entry of the matrix. |
| Layout.InternalWalls | index.js:125-158 | The horizontal matrix's rectangles, then the vertical one's: as many as there are closed entries in both. |
| Layout.RowRectsMember | index.js:126-140 | A rectangle is emitted for a row exactly when it is the rectangle of one of the row's closed entries. |
| Layout.MatrixRectsMember | index.js:125-158 | A rectangle is emitted for a matrix exactly when it is the rectangle of one of its closed entries. |
| Layout.WallRectInjective | index.js:129-155 | With a positive unit, distinct entries of one matrix get distinct rectangles. |
| Layout.DrawnIffClosed | index.js:125-158 | The rectangle of entry `(i, j)` is emitted if and only if that entry is `false`. |
| Layout.InternalWallCount | index.js:125-158 | When the wall matrices hold one open entry fewer than cells, there are `2 * cells * (cells - 1) - (cells * cells - 1)` internal rectangles. |
| Layout.SingleCellHasNoInternalWalls | index.js:125-158 | A one-cell maze has no internal rectangles, so its field has only the four boundary ones. |
| Layout.SideBlocked | index.js:25-158 | With an even unit: a side of a cell facing out of the grid lies under a boundary rectangle, and a side shared with a neighbour across a closed wall lies under that wall's rectangle. |
| Layout.EdgeSideBlocked | index.js:25-38 | An outward-facing side of an edge cell lies under one of the four boundary rectangles. |
| Layout.InnerSideBlocked | index.js:129-155 | The rectangle of horizontal entry `(i, j)` covers the bottom side of cell `(i, j)`, and that of vertical entry `(i, j)` its right side. |

## Left out

- The Matter.js engine, renderer and runner (index.js:1, 9-22), and every `World.add` (index.js:40, 139, 156). `Generator.Build` returns the rectangles it would add, in order, instead of handing them to an engine. The `isStatic` option is the same for every body and is not modelled.
- `Math.random` (index.js:46, 67-68): the shuffle's index and the start cell are nondeterministic choices in their ranges. Nothing is claimed about uniformity or reproducibility for a fixed seed.
- Floating point: coordinates are integers. `width / cells`, `width / 2` and `unitLength / 2` are integer divisions, exact for the source's 600, 12 and 50. For other sizes they truncate.
- Layout.SideBlocked: stated only for an even unit, where the source's halves are exact.
- Layout.PerimeterCoversBoundary: stated only for an even-sized field, for the same reason.
- Acyclicity: stated as connectivity together with an open-wall count of one fewer than the cells, which characterises a tree. The graph-theoretic step from that to "no cycle" is not proved here.
- The neighbour loop and one round of it are methods of their own, `VisitNeighbors` and `CarveToward`, mutually recursive with `StepThroughCell`, and marking a cell is `MarkVisited`. The statements and their order are the source's.
- The goal, the player, keyboard input and the win transition are not in `index.js`, so they are not part of this model.
- Call-stack depth: the recursion is modelled as written. Host stack limits are not modelled.
- The grid is square: one `cells` count serves for rows and columns, and one unit length for both axes.
- `index.js` has no configuration check. A `cells` below 1 makes one of the `Array(...)` calls at index.js:55-65 throw, so the model requires `cells >= 1`.
- The shuffle walks `counter` down to 1 and swaps entry `counter - 1` with an index below `counter`; its last round, at `counter == 1`, swaps entry 0 with itself. The model keeps that round.
