/** The maze generator: the three boolean matrices, the randomized recursive
    backtracker that carves passages into them, and the script that builds the
    play field from the result. */
module Generator {
  import opened Matrix
  import opened Grid
  import Shuffle
  import Layout

  /** Size of the play field, and cells per side, as the source fixes them. */
  const Width := 600
  const Height := 600
  const Cells := 12

  /** A candidate move out of a cell: the cell it leads to and its direction. */
  datatype Neighbor = Neighbor(row: int, column: int, direction: Direction)

  /** The four neighbours of `(row, column)` in the order the source lists
      them: one entry per direction, each leading to the cell one step away
      in its direction. */
  function Neighbors(row: int, column: int): (ns: seq<Neighbor>)
    ensures |ns| == 4
    ensures forall k :: 0 <= k < 4 ==> Pos(ns[k].row, ns[k].column) == Step(Pos(row, column), ns[k].direction)
    ensures forall d: Direction ::
      Neighbor(Step(Pos(row, column), d).row, Step(Pos(row, column), d).column, d) in ns
  {
    [ Neighbor(row - 1, column, Up),
      Neighbor(row, column + 1, Right),
      Neighbor(row + 1, column, Down),
      Neighbor(row, column - 1, Left) ]
  }

  /** A fresh array holding the four neighbours of `(row, column)` in shuffled order. */
  method ShuffledNeighbors(row: int, column: int) returns (neighbors: array<Neighbor>)
    ensures fresh(neighbors) && neighbors.Length == 4
    ensures multiset(neighbors[..]) == multiset(Neighbors(row, column))
  {
    var list := new Neighbor[4](k requires 0 <= k < 4 => Neighbors(row, column)[k]);
    assert list[..] == Neighbors(row, column);
    neighbors := Shuffle.ShuffleArray(list);
  }

  /** Every entry of a shuffled neighbour list leads one step away in its direction. */
  lemma ShuffledNeighbor(ns: seq<Neighbor>, row: int, column: int, i: int)
    requires multiset(ns) == multiset(Neighbors(row, column)) && 0 <= i < |ns|
    ensures Pos(ns[i].row, ns[i].column) == Step(Pos(row, column), ns[i].direction)
  {
    assert ns[i] in multiset(Neighbors(row, column));
  }

  /** The first `i` entries of `ns` lead outside the grid or into `V`. */
  ghost predicate Processed(ns: seq<Neighbor>, i: int, n: int, V: set<Pos>) {
    forall j :: 0 <= j < i && j < |ns| && InBounds(n, Pos(ns[j].row, ns[j].column)) ==> Pos(ns[j].row, ns[j].column) in V
  }

  /** Once entry `i` leads outside the grid or into the larger set `V'`, the first `i + 1` entries are processed. */
  lemma ProcessedGrows(ns: seq<Neighbor>, i: int, n: int, V: set<Pos>, V': set<Pos>)
    requires 0 <= i < |ns| && Processed(ns, i, n, V) && V <= V'
    requires InBounds(n, Pos(ns[i].row, ns[i].column)) ==> Pos(ns[i].row, ns[i].column) in V'
    ensures Processed(ns, i + 1, n, V')
  {
  }

  /** If every in-grid entry of a shuffled neighbour list is in `V`, every
      in-grid neighbour of the cell is: the shuffle lost none of the four. */
  lemma ShuffledNeighborsCovered(ns: seq<Neighbor>, n: int, V: set<Pos>, row: int, column: int)
    requires multiset(ns) == multiset(Neighbors(row, column))
    requires Processed(ns, |ns|, n, V)
    ensures Closed(n, V, Pos(row, column))
  {
    var cell := Pos(row, column);
    forall d: Direction | InBounds(n, Step(cell, d)) ensures Step(cell, d) in V {
      var nb := Neighbor(Step(cell, d).row, Step(cell, d).column, d);
      assert nb in multiset(ns);
      var j :| 0 <= j < |ns| && ns[j] == nb;
    }
  }

  /** Cells visited since `V0` that were closed before a recursive call stay
      closed, and so do the cells the call itself visited and closed. */
  lemma ClosedAfterCall(n: int, V0: set<Pos>, V: set<Pos>, V': set<Pos>)
    requires V <= V'
    requires forall p :: p in V && p !in V0 ==> Closed(n, V, p)
    requires forall p :: p in V' && p !in V ==> Closed(n, V', p)
    ensures forall p :: p in V' && p !in V0 ==> Closed(n, V', p)
  {
    forall p | p in V' && p !in V0 ensures Closed(n, V', p) {
      if p in V {
        assert Closed(n, V, p);
      }
    }
  }

  /** The cells visited since `V0` are closed once `cell` is and every cell
      visited since `cell` was added is. */
  lemma ClosedWithCell(n: int, V0: set<Pos>, cell: Pos, V1: set<Pos>, V: set<Pos>)
    requires V1 == V0 + {cell}
    requires Closed(n, V, cell)
    requires forall p :: p in V && p !in V1 ==> Closed(n, V, p)
    ensures forall p :: p in V && p !in V0 ==> Closed(n, V, p)
  {
  }

  /** The entries of a two-dimensional array, row by row. */
  function Rows(a: array2<bool>): (m: seq<seq<bool>>)
    reads a
    ensures Rectangular(m, a.Length0, a.Length1)
    ensures forall i, j :: 0 <= i < a.Length0 && 0 <= j < a.Length1 ==> m[i][j] == a[i, j]
  {
    seq(a.Length0, i requires 0 <= i < a.Length0 reads a =>
      seq(a.Length1, j requires 0 <= j < a.Length1 reads a => a[i, j]))
  }

  class Maze {
    /** Cells per side of the square grid. */
    const cells: nat
    /** `grid[r, c]`: cell `(r, c)` has been visited. */
    const grid: array2<bool>
    /** `verticals[r, c]`: the wall between `(r, c)` and `(r, c + 1)` is open. */
    const verticals: array2<bool>
    /** `horizontals[r, c]`: the wall between `(r, c)` and `(r + 1, c)` is open. */
    const horizontals: array2<bool>

    /** The visited cells, and the open entries of each wall matrix. */
    ghost var visited: set<Pos>
    ghost var openH: set<Pos>
    ghost var openV: set<Pos>
    /** The cell each carved cell was carved from, and how many carving
        steps separate it from the start cell. */
    ghost var parent: map<Pos, Pos>
    ghost var depth: map<Pos, nat>

    /** The matrices have their shapes, and the ghost sets are exactly their `true` entries. */
    ghost predicate Valid()
      reads this, grid, verticals, horizontals
    {
      cells >= 1 &&
      grid.Length0 == cells && grid.Length1 == cells &&
      verticals.Length0 == cells && verticals.Length1 == cells - 1 &&
      horizontals.Length0 == cells - 1 && horizontals.Length1 == cells &&
      grid != verticals && grid != horizontals && verticals != horizontals &&
      (forall p {:trigger p in visited} :: p in visited <==> InBounds(cells, p) && grid[p.row, p.column]) &&
      (forall p {:trigger p in openV} :: p in openV <==>
        0 <= p.row < cells && 0 <= p.column < cells - 1 && verticals[p.row, p.column]) &&
      (forall p {:trigger p in openH} :: p in openH <==>
        0 <= p.row < cells - 1 && 0 <= p.column < cells && horizontals[p.row, p.column])
    }

    /** Sets up the three matrices, every entry `false`: nothing visited, every wall closed. */
    constructor (cells: nat)
      requires cells >= 1
      ensures Valid() && this.cells == cells
      ensures visited == {} && openH == {} && openV == {}
      ensures fresh(grid) && fresh(verticals) && fresh(horizontals)
    {
      this.cells := cells;
      grid := new bool[cells, cells]((i, j) => false);
      verticals := new bool[cells, cells - 1]((i, j) => false);
      horizontals := new bool[cells - 1, cells]((i, j) => false);
      visited, openH, openV := {}, {}, {};
      parent, depth := map[], map[];
    }

    /** Opens the wall between `(row, column)` and its neighbour in direction
        `d`; a move left or right writes `verticals`, a move up or down writes
        `horizontals`, always inside the matrix because the neighbour is in the grid. */
    method OpenWall(row: int, column: int, d: Direction)
      requires Valid()
      requires InBounds(cells, Pos(row, column)) && InBounds(cells, Step(Pos(row, column), d))
      modifies this`openH, this`openV, verticals, horizontals
      ensures Valid()
      ensures openH == OpenH(old(openH), Pos(row, column), d)
      ensures openV == OpenV(old(openV), Pos(row, column), d)
    {
      match d {
        case Left =>
          verticals[row, column - 1] := true;
        case Right =>
          verticals[row, column] := true;
        case Up =>
          horizontals[row - 1, column] := true;
        case Down =>
          horizontals[row, column] := true;
      }
      openH, openV := OpenH(openH, Pos(row, column), d), OpenV(openV, Pos(row, column), d);
    }

    /** Marks cell `(row, column)` visited. */
    method MarkVisited(row: int, column: int)
      requires Valid() && InBounds(cells, Pos(row, column))
      modifies this`visited, grid
      ensures Valid()
      ensures visited == old(visited) + {Pos(row, column)}
    {
      grid[row, column] := true;
      visited := visited + {Pos(row, column)};
    }

    /** Carves from `(row, column)`. A visited cell is left alone. Otherwise the
        cell is marked visited, and each neighbour, in shuffled order, that is
        inside the grid and still unvisited gets the shared wall opened and is
        carved from in turn.

        `root` is the cell the whole generation started from: on entry the open
        walls span the visited cells together with `(row, column)` (which an
        open wall just joined to them, or which is `root` itself), and on return
        they span the visited cells, which now include `(row, column)`. Every
        cell this call visits ends with all its neighbours visited. */
    method StepThroughCell(row: int, column: int, ghost root: Pos)
      requires Valid()
      requires InBounds(cells, Pos(row, column))
      requires Tree(cells, root, visited + {Pos(row, column)}, openH, openV, parent, depth)
      modifies this, grid, verticals, horizontals
      ensures Valid()
      ensures Pos(row, column) in visited && grid[row, column]
      ensures Tree(cells, root, visited, openH, openV, parent, depth)
      ensures old(visited) <= visited && old(openH) <= openH && old(openV) <= openV
      ensures forall p :: p in visited && p !in old(visited) ==> Closed(cells, visited, p)
      ensures old(grid[row, column]) ==>
        visited == old(visited) && openH == old(openH) && openV == old(openV) &&
        unchanged(grid) && unchanged(verticals) && unchanged(horizontals)
      decreases AllCells(cells) - visited, 0
    {
      var cell := Pos(row, column);
      ghost var V0, H0, W0 := visited, openH, openV;
      if grid[row, column] {
        assert visited + {cell} == visited;
        return;
      }
      MarkVisited(row, column);
      var neighbors := ShuffledNeighbors(row, column);
      assert AllCells(cells) - visited < AllCells(cells) - V0 by {
        assert cell in AllCells(cells);
      }
      ghost var V1 := visited;
      VisitNeighbors(row, column, neighbors, root);
      ClosedWithCell(cells, V0, cell, V1, visited);
    }

    /** The neighbour loop of `StepThroughCell`, once `(row, column)` is marked
        visited: each entry of the shuffled list `neighbors`, in order, is
        carved toward. Afterwards every in-grid neighbour of the cell is
        visited, the open walls still span the visited cells, and every cell
        visited here has all its neighbours visited. */
    method VisitNeighbors(row: int, column: int, neighbors: array<Neighbor>, ghost root: Pos)
      requires Valid()
      requires InBounds(cells, Pos(row, column)) && Pos(row, column) in visited
      requires neighbors.Length == 4 && multiset(neighbors[..]) == multiset(Neighbors(row, column))
      requires Tree(cells, root, visited, openH, openV, parent, depth)
      modifies this, grid, verticals, horizontals
      ensures Valid()
      ensures Tree(cells, root, visited, openH, openV, parent, depth)
      ensures old(visited) <= visited && old(openH) <= openH && old(openV) <= openV
      ensures forall p :: p in visited && p !in old(visited) ==> Closed(cells, visited, p)
      ensures Closed(cells, visited, Pos(row, column))
      decreases AllCells(cells) - visited, 2
    {
      ghost var V0, H0, W0 := visited, openH, openV;
      ghost var ns := neighbors[..];
      for i := 0 to 4
        invariant Valid()
        invariant Tree(cells, root, visited, openH, openV, parent, depth)
        invariant V0 <= visited && H0 <= openH && W0 <= openV
        invariant forall p :: p in visited && p !in V0 ==> Closed(cells, visited, p)
        invariant Processed(ns, i, cells, visited)
      {
        ShuffledNeighbor(ns, row, column, i);
        ghost var before := visited;
        CarveToward(row, column, neighbors[i], root);
        ClosedAfterCall(cells, V0, before, visited);
        ProcessedGrows(ns, i, cells, before, visited);
      }
      ShuffledNeighborsCovered(ns, cells, visited, row, column);
    }

    /** One round of the neighbour loop of `StepThroughCell`: a neighbour
        outside the grid or already visited is skipped; otherwise the wall
        between the two cells is opened and carving continues from the
        neighbour. Afterwards an in-grid neighbour is visited, the open walls
        still span the visited cells, and every cell visited here has all its
        neighbours visited. */
    method CarveToward(row: int, column: int, next: Neighbor, ghost root: Pos)
      requires Valid()
      requires InBounds(cells, Pos(row, column)) && Pos(row, column) in visited
      requires Pos(next.row, next.column) == Step(Pos(row, column), next.direction)
      requires Tree(cells, root, visited, openH, openV, parent, depth)
      modifies this, grid, verticals, horizontals
      ensures Valid()
      ensures Tree(cells, root, visited, openH, openV, parent, depth)
      ensures old(visited) <= visited && old(openH) <= openH && old(openV) <= openV
      ensures forall p :: p in visited && p !in old(visited) ==> Closed(cells, visited, p)
      ensures InBounds(cells, Pos(next.row, next.column)) ==> Pos(next.row, next.column) in visited
      ensures !InBounds(cells, Pos(next.row, next.column)) || old(Pos(next.row, next.column) in visited) ==>
        visited == old(visited) && openH == old(openH) && openV == old(openV) &&
        unchanged(grid) && unchanged(verticals) && unchanged(horizontals)
      ensures InBounds(cells, Pos(next.row, next.column)) && old(Pos(next.row, next.column) !in visited) ==>
        Linked(openH, openV, Pos(row, column), Pos(next.row, next.column))
      decreases AllCells(cells) - visited, 1
    {
      if next.row < 0 || next.row >= cells || next.column < 0 || next.column >= cells {
        return;
      }
      if grid[next.row, next.column] {
        return;
      }
      var cell, q := Pos(row, column), Pos(next.row, next.column);
      ghost var V, H, W, P, D := visited, openH, openV, parent, depth;
      GrowTree(cells, root, V, H, W, P, D, cell, next.direction);
      OpenWall(row, column, next.direction);
      parent, depth := P[q := cell], D[q := D[cell] + 1];
      assert visited == V && openH == OpenH(H, cell, next.direction) && openV == OpenV(W, cell, next.direction);
      OpenLinks(H, W, cell, next.direction);
      ghost var H1, W1 := openH, openV;
      StepThroughCell(next.row, next.column, root);
      LinkedMono(H1, W1, openH, openV, cell, q);
    }

    /** The ghost sets are the marked entries of the matrices as rows of values. */
    lemma MarkedMatrices()
      requires Valid()
      ensures visited == Marked(Rows(grid))
      ensures openH == Marked(Rows(horizontals))
      ensures openV == Marked(Rows(verticals))
    {
      var g, h, v := Rows(grid), Rows(horizontals), Rows(verticals);
      forall p | p in Marked(g) ensures p in visited {
        var i, j :| 0 <= i < |g| && 0 <= j < |g[i]| && g[i][j] && p == Pos(i, j);
      }
      forall p | p in visited ensures p in Marked(g) {
        assert g[p.row][p.column];
      }
      forall p | p in Marked(h) ensures p in openH {
        var i, j :| 0 <= i < |h| && 0 <= j < |h[i]| && h[i][j] && p == Pos(i, j);
      }
      forall p | p in openH ensures p in Marked(h) {
        assert h[p.row][p.column];
      }
      forall p | p in Marked(v) ensures p in openV {
        var i, j :| 0 <= i < |v| && 0 <= j < |v[i]| && v[i][j] && p == Pos(i, j);
      }
      forall p | p in openV ensures p in Marked(v) {
        assert v[p.row][p.column];
      }
    }

    /** Picks a start cell (the source picks it at random; here the choice is
        left open) and carves from it. Starting from all-`false` matrices, this
        visits every cell, and the open walls form a spanning tree of the whole
        grid: cells * cells - 1 of them, every cell reachable from the start. */
    method Generate() returns (start: Pos)
      requires Valid() && visited == {} && openH == {} && openV == {}
      modifies this, grid, verticals, horizontals
      ensures Valid()
      ensures InBounds(cells, start)
      ensures forall r, c :: 0 <= r < cells && 0 <= c < cells ==> grid[r, c]
      ensures visited == AllCells(cells)
      ensures SpanningTree(cells, start, visited, openH, openV)
      ensures |openH| + |openV| == cells * cells - 1
      ensures Count(Rows(horizontals), true) + Count(Rows(verticals), true) == cells * cells - 1
    {
      var startRow :| 0 <= startRow < cells;
      var startColumn :| 0 <= startColumn < cells;
      start := Pos(startRow, startColumn);
      StartTree(cells, start);
      parent, depth := map[], map[start := 0];
      assert visited + {start} == {start};
      StepThroughCell(startRow, startColumn, start);
      TreeSpans(cells, start, visited, openH, openV, parent, depth);
      ClosedSetIsGrid(cells, visited, start);
      CompleteCounts();
    }

    /** Once every cell is visited, every entry of the grid matrix is `true`. */
    lemma GridComplete()
      requires Valid()
      requires forall q :: InBounds(cells, q) ==> q in visited
      ensures forall r, c :: 0 <= r < cells && 0 <= c < cells ==> grid[r, c]
      ensures visited == AllCells(cells)
    {
      forall r, c | 0 <= r < cells && 0 <= c < cells ensures grid[r, c] {
        assert Pos(r, c) in visited;
      }
    }

    /** Once every cell is visited, the grid matrix is all `true`, and a
        spanning tree of all cells * cells cells has cells * cells - 1 open
        walls, which are the `true` entries of the two wall matrices. */
    lemma CompleteCounts()
      requires Valid()
      requires forall q :: InBounds(cells, q) ==> q in visited
      requires |openH| + |openV| + 1 == |visited|
      ensures forall r, c :: 0 <= r < cells && 0 <= c < cells ==> grid[r, c]
      ensures visited == AllCells(cells)
      ensures |openH| + |openV| == cells * cells - 1
      ensures Count(Rows(horizontals), true) + Count(Rows(verticals), true) == cells * cells - 1
    {
      GridComplete();
      MarkedMatrices();
      var g := Rows(grid);
      MarkedCount(g);
      MarkedCount(Rows(horizontals));
      MarkedCount(Rows(verticals));
      CountAbsent(g, false);
      CountSplit(g, cells, cells);
    }
  }

  /** The whole build: the four boundary rectangles, then a generated maze of
      `cells` by `cells` and the rectangles of its closed walls, with cells
      `Width / cells` units wide. The maze's open walls form a spanning tree
      of the grid rooted at the start cell the generator picked. */
  method Build(cells: nat) returns (maze: Maze, start: Pos, bodies: seq<Layout.Rect>)
    requires cells >= 1
    ensures maze.Valid() && maze.cells == cells
    ensures maze.visited == AllCells(cells)
    ensures InBounds(cells, start) && SpanningTree(cells, start, maze.visited, maze.openH, maze.openV)
    ensures |bodies| >= 4 && bodies[..4] == Layout.Perimeter(Width, Height)
    ensures bodies[4..] == Layout.InternalWalls(Rows(maze.horizontals), Rows(maze.verticals), Width / cells)
    ensures |bodies| - 4 == 2 * cells * (cells - 1) - (cells * cells - 1)
  {
    var walls := Layout.Perimeter(Width, Height);
    maze := new Maze(cells);
    start := maze.Generate();
    var unitLength := Width / cells;
    var internal := Layout.InternalWalls(Rows(maze.horizontals), Rows(maze.verticals), unitLength);
    Layout.InternalWallCount(cells, Rows(maze.horizontals), Rows(maze.verticals), unitLength);
    bodies := walls + internal;
  }

  /** The field as the source builds it: 12 by 12 cells 50 units wide, so four
      boundary rectangles and 2 * 12 * 11 - 143 = 121 internal ones. */
  method BuildField() returns (maze: Maze, start: Pos, bodies: seq<Layout.Rect>)
    ensures maze.Valid() && maze.cells == Cells && maze.visited == AllCells(Cells)
    ensures InBounds(Cells, start) && SpanningTree(Cells, start, maze.visited, maze.openH, maze.openV)
    ensures |bodies| == 4 + 121
    ensures bodies[..4] == Layout.Perimeter(600, 600)
    ensures bodies[4..] == Layout.InternalWalls(Rows(maze.horizontals), Rows(maze.verticals), 50)
  {
    maze, start, bodies := Build(Cells);
  }
}
