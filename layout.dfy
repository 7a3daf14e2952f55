/** Turning the wall matrices into the static rectangles of the play field.
    A rectangle is given as the rendering engine takes it: centre `(x, y)`,
    then `width` and `height`. Coordinates are integers; the source's unit
    length is 600 / 12 = 50, for which every value below is exact. */
module Layout {
  import opened Matrix
  import opened Grid

  datatype Rect = Rect(x: int, y: int, width: int, height: int)

  /** Which wall matrix an entry belongs to. */
  datatype Orientation = Horizontal | Vertical

  /** Thickness of the four boundary rectangles. */
  const PerimeterThickness := 40
  /** Thickness of an internal wall. */
  const WallThickness := 10

  /** The four boundary rectangles of a `width` by `height` field: top, bottom, left, right. */
  function Perimeter(width: int, height: int): (rs: seq<Rect>)
    ensures |rs| == 4
  {
    [ Rect(width / 2, 0, width, PerimeterThickness),
      Rect(width / 2, height, width, PerimeterThickness),
      Rect(0, height / 2, PerimeterThickness, height),
      Rect(width, height / 2, PerimeterThickness, height) ]
  }

  /** The rectangle drawn for a closed wall entry at `(rowIdx, columnIdx)` of the
      horizontal or vertical matrix, with cells `u` units wide. */
  function WallRect(o: Orientation, rowIdx: int, columnIdx: int, u: int): (r: Rect)
    ensures o == Horizontal ==>
      r.y == (rowIdx + 1) * u && r.width == u && r.height == WallThickness &&
      (u % 2 == 0 ==> r.x - r.width / 2 == columnIdx * u && r.x + r.width / 2 == (columnIdx + 1) * u)
    ensures o == Vertical ==>
      r.x == (columnIdx + 1) * u && r.width == WallThickness && r.height == u &&
      (u % 2 == 0 ==> r.y - r.height / 2 == rowIdx * u && r.y + r.height / 2 == (rowIdx + 1) * u)
  {
    match o
    case Horizontal => Rect(columnIdx * u + u / 2, rowIdx * u + u, u, WallThickness)
    case Vertical => Rect(columnIdx * u + u, rowIdx * u + u / 2, WallThickness, u)
  }

  /** The rectangles for row `rowIdx` of a wall matrix, left to right: one per
      closed (`false`) entry. */
  function RowRects(o: Orientation, row: seq<bool>, rowIdx: int, u: int): (rs: seq<Rect>)
    ensures |rs| == CountRow(row, false)
  {
    if row == [] then []
    else RowRects(o, row[..|row| - 1], rowIdx, u) + (if row[|row| - 1] then [] else [WallRect(o, rowIdx, |row| - 1, u)])
  }

  /** The rectangles for a whole wall matrix, row by row: one per closed entry. */
  function MatrixRects(o: Orientation, m: seq<seq<bool>>, u: int): (rs: seq<Rect>)
    ensures |rs| == Count(m, false)
  {
    if m == [] then []
    else MatrixRects(o, m[..|m| - 1], u) + RowRects(o, m[|m| - 1], |m| - 1, u)
  }

  /** All internal walls: first those of the horizontal matrix, then those of the vertical one. */
  function InternalWalls(horizontals: seq<seq<bool>>, verticals: seq<seq<bool>>, u: int): (rs: seq<Rect>)
    ensures |rs| == Count(horizontals, false) + Count(verticals, false)
  {
    MatrixRects(Horizontal, horizontals, u) + MatrixRects(Vertical, verticals, u)
  }

  /** A rectangle is among a row's rectangles exactly when it is the rectangle of a closed entry of the row. */
  lemma {:induction false} RowRectsMember(o: Orientation, row: seq<bool>, rowIdx: int, u: int, r: Rect)
    ensures r in RowRects(o, row, rowIdx, u) <==>
      exists j :: 0 <= j < |row| && !row[j] && r == WallRect(o, rowIdx, j, u)
  {
    if row != [] {
      var init := row[..|row| - 1];
      var last := |row| - 1;
      RowRectsMember(o, init, rowIdx, u, r);
      if r in RowRects(o, init, rowIdx, u) {
        var j :| 0 <= j < |init| && !init[j] && r == WallRect(o, rowIdx, j, u);
        assert row[j] == init[j];
      }
      if exists j :: 0 <= j < |row| && !row[j] && r == WallRect(o, rowIdx, j, u) {
        var j :| 0 <= j < |row| && !row[j] && r == WallRect(o, rowIdx, j, u);
        if j < last {
          assert init[j] == row[j];
        }
      }
    }
  }

  /** A rectangle is among a matrix's rectangles exactly when it is the rectangle of a closed entry of the matrix. */
  lemma {:induction false} MatrixRectsMember(o: Orientation, m: seq<seq<bool>>, u: int, r: Rect)
    ensures r in MatrixRects(o, m, u) <==>
      exists i, j :: 0 <= i < |m| && 0 <= j < |m[i]| && !m[i][j] && r == WallRect(o, i, j, u)
  {
    if m != [] {
      var init := m[..|m| - 1];
      var last := |m| - 1;
      MatrixRectsMember(o, init, u, r);
      RowRectsMember(o, m[last], last, u, r);
      if r in MatrixRects(o, init, u) {
        var i, j :| 0 <= i < |init| && 0 <= j < |init[i]| && !init[i][j] && r == WallRect(o, i, j, u);
        assert m[i] == init[i];
      }
      if exists i, j :: 0 <= i < |m| && 0 <= j < |m[i]| && !m[i][j] && r == WallRect(o, i, j, u) {
        var i, j :| 0 <= i < |m| && 0 <= j < |m[i]| && !m[i][j] && r == WallRect(o, i, j, u);
        if i < last {
          assert init[i] == m[i];
        }
      }
    }
  }

  /** With a positive unit, distinct entries of one matrix get distinct rectangles. */
  lemma WallRectInjective(o: Orientation, i: int, j: int, i': int, j': int, u: int)
    requires u > 0
    requires WallRect(o, i, j, u) == WallRect(o, i', j', u)
    ensures i == i' && j == j'
  {
  }

  /** The rectangle of an entry is drawn exactly when the entry is closed. */
  lemma DrawnIffClosed(o: Orientation, m: seq<seq<bool>>, u: int, i: int, j: int)
    requires u > 0
    requires 0 <= i < |m| && 0 <= j < |m[i]|
    ensures WallRect(o, i, j, u) in MatrixRects(o, m, u) <==> !m[i][j]
  {
    MatrixRectsMember(o, m, u, WallRect(o, i, j, u));
    if WallRect(o, i, j, u) in MatrixRects(o, m, u) {
      var i', j' :| 0 <= i' < |m| && 0 <= j' < |m[i']| && !m[i'][j'] && WallRect(o, i, j, u) == WallRect(o, i', j', u);
      WallRectInjective(o, i, j, i', j', u);
    }
  }

  /** In a grid of `cells` by `cells` whose open walls number one fewer than the
      cells (a spanning tree), the number of internal rectangles is the number
      of wall entries, 2 * cells * (cells - 1), minus cells * cells - 1. */
  lemma InternalWallCount(cells: nat, horizontals: seq<seq<bool>>, verticals: seq<seq<bool>>, u: int)
    requires cells >= 1
    requires Rectangular(horizontals, cells - 1, cells) && Rectangular(verticals, cells, cells - 1)
    requires Count(horizontals, true) + Count(verticals, true) == cells * cells - 1
    ensures |InternalWalls(horizontals, verticals, u)| == 2 * cells * (cells - 1) - (cells * cells - 1)
  {
    CountSplit(horizontals, cells - 1, cells);
    CountSplit(verticals, cells, cells - 1);
    WallEntries(cells);
  }

  /** The two wall matrices of a `cells` by `cells` grid have `2 * cells * (cells - 1)` entries together. */
  lemma WallEntries(cells: int)
    ensures (cells - 1) * cells + cells * (cells - 1) == 2 * cells * (cells - 1)
  {
  }

  /** A one-cell maze has no internal wall to draw. */
  lemma SingleCellHasNoInternalWalls(horizontals: seq<seq<bool>>, verticals: seq<seq<bool>>, u: int)
    requires Rectangular(horizontals, 0, 1) && Rectangular(verticals, 1, 0)
    ensures InternalWalls(horizontals, verticals, u) == []
  {
    CountSplit(horizontals, 0, 1);
    CountSplit(verticals, 1, 0);
  }

  /** Rectangle `r` contains the point `(x, y)` (edges included). */
  predicate Covers(r: Rect, x: int, y: int) {
    2 * Abs(x - r.x) <= r.width && 2 * Abs(y - r.y) <= r.height
  }

  /** Some rectangle of `rs` contains the whole segment from `(x1, y1)` to `(x2, y2)`
      (rectangles are convex, so its two ends suffice). */
  predicate Blocked(rs: seq<Rect>, x1: int, y1: int, x2: int, y2: int) {
    exists r :: r in rs && Covers(r, x1, y1) && Covers(r, x2, y2)
  }

  /** Whether the wall on side `d` of cell `p` is open, read from the matrices. */
  function WallOpen(horizontals: seq<seq<bool>>, verticals: seq<seq<bool>>, cells: int, p: Pos, d: Direction): bool
    requires Rectangular(horizontals, cells - 1, cells) && Rectangular(verticals, cells, cells - 1)
    requires InBounds(cells, p) && InBounds(cells, Step(p, d))
  {
    match d
    case Up => horizontals[p.row - 1][p.column]
    case Down => horizontals[p.row][p.column]
    case Left => verticals[p.row][p.column - 1]
    case Right => verticals[p.row][p.column]
  }

  /** The side of cell `p` facing direction `d`, as a segment `(x1, y1)`-`(x2, y2)`,
      for cells `u` units wide. */
  function Side(p: Pos, d: Direction, u: int): (int, int, int, int) {
    match d
    case Up => (p.column * u, p.row * u, p.column * u + u, p.row * u)
    case Down => (p.column * u, p.row * u + u, p.column * u + u, p.row * u + u)
    case Left => (p.column * u, p.row * u, p.column * u, p.row * u + u)
    case Right => (p.column * u + u, p.row * u, p.column * u + u, p.row * u + u)
  }

  /** The rectangles close every cell in: a side of a cell on the edge of the
      grid lies under a boundary rectangle, and a side between two cells whose
      wall entry is closed lies under the internal rectangle drawn for it
      (for an even unit, so that the source's halves are exact). */
  lemma SideBlocked(cells: int, horizontals: seq<seq<bool>>, verticals: seq<seq<bool>>, u: int, p: Pos, d: Direction)
    requires cells >= 1 && u > 0 && u % 2 == 0
    requires Rectangular(horizontals, cells - 1, cells) && Rectangular(verticals, cells, cells - 1)
    requires InBounds(cells, p)
    ensures var (x1, y1, x2, y2) := Side(p, d, u);
      if !InBounds(cells, Step(p, d)) then Blocked(Perimeter(cells * u, cells * u), x1, y1, x2, y2)
      else !WallOpen(horizontals, verticals, cells, p, d) ==>
        Blocked(InternalWalls(horizontals, verticals, u), x1, y1, x2, y2)
  {
    if !InBounds(cells, Step(p, d)) {
      EdgeSideBlocked(cells, u, p, d);
    } else if !WallOpen(horizontals, verticals, cells, p, d) {
      var (o, i, j) := match d
        case Up => (Horizontal, p.row - 1, p.column)
        case Down => (Horizontal, p.row, p.column)
        case Left => (Vertical, p.row, p.column - 1)
        case Right => (Vertical, p.row, p.column);
      var m := if o == Horizontal then horizontals else verticals;
      assert !m[i][j];
      DrawnIffClosed(o, m, u, i, j);
      InnerSideBlocked(o, i, j, u);
      SharedSide(p, d, u);
      var r := WallRect(o, i, j, u);
      assert r in InternalWalls(horizontals, verticals, u);
    }
  }

  /** The top side of a cell is the bottom side of the cell above, and its
      left side the right side of the cell to its left. */
  lemma SharedSide(p: Pos, d: Direction, u: int)
    ensures d == Up ==> Side(p, Up, u) == Side(Step(p, Up), Down, u)
    ensures d == Left ==> Side(p, Left, u) == Side(Step(p, Left), Right, u)
  {
    assert (p.row - 1) * u + u == p.row * u;
    assert (p.column - 1) * u + u == p.column * u;
  }

  /** The rectangle of a wall entry lies over the side the two cells share:
      a horizontal entry `(i, j)` over the bottom side of cell `(i, j)`, a
      vertical entry `(i, j)` over its right side. */
  lemma InnerSideBlocked(o: Orientation, i: int, j: int, u: int)
    requires u > 0 && u % 2 == 0
    ensures var r := WallRect(o, i, j, u);
      var (x1, y1, x2, y2) := Side(Pos(i, j), if o == Horizontal then Down else Right, u);
      Covers(r, x1, y1) && Covers(r, x2, y2)
  {
  }

  /** Cell `k` of a row spans `[k * u, k * u + u]`, inside a field `cells * u`
      wide, and for the last cell the span ends at the field's edge. */
  lemma CellInField(cells: int, u: int, k: int)
    requires u > 0 && 0 <= k < cells
    ensures 0 <= k * u && k * u + u <= cells * u
    ensures k == cells - 1 ==> k * u + u == cells * u
  {
    var rest := cells - k - 1;
    assert rest >= 0;
    assert cells * u == k * u + u + rest * u;
    assert rest * u >= 0;
    assert k * u >= 0;
  }

  /** A side of an edge cell that faces out of the grid lies under a boundary rectangle. */
  lemma EdgeSideBlocked(cells: int, u: int, p: Pos, d: Direction)
    requires cells >= 1 && u > 0 && u % 2 == 0
    requires InBounds(cells, p) && !InBounds(cells, Step(p, d))
    ensures var (x1, y1, x2, y2) := Side(p, d, u);
      Blocked(Perimeter(cells * u, cells * u), x1, y1, x2, y2)
  {
    EvenField(cells, u);
    CellInField(cells, u, p.row);
    CellInField(cells, u, p.column);
    var (x1, y1, x2, y2) := Side(p, d, u);
    match d {
      case Up => assert p.row == 0 && y1 == 0 && y2 == 0;
      case Down => assert p.row == cells - 1 && y1 == cells * u && y2 == cells * u;
      case Left => assert p.column == 0 && x1 == 0 && x2 == 0;
      case Right => assert p.column == cells - 1 && x1 == cells * u && x2 == cells * u;
    }
    EdgeSegmentBlocked(cells * u, x1, y1, x2, y2);
  }

  /** A field of whole cells with an even unit is a positive even number of units wide. */
  lemma EvenField(cells: int, u: int)
    requires cells >= 1 && u > 0 && u % 2 == 0
    ensures cells * u > 0 && (cells * u) % 2 == 0
  {
    var half := u / 2;
    assert cells * u == 2 * (cells * half);
  }

  /** A segment along one edge of an even-sized square field lies under a boundary rectangle. */
  lemma EdgeSegmentBlocked(size: int, x1: int, y1: int, x2: int, y2: int)
    requires size > 0 && size % 2 == 0
    requires 0 <= x1 <= size && 0 <= x2 <= size && 0 <= y1 <= size && 0 <= y2 <= size
    requires (y1 == 0 && y2 == 0) || (y1 == size && y2 == size) || (x1 == 0 && x2 == 0) || (x1 == size && x2 == size)
    ensures Blocked(Perimeter(size, size), x1, y1, x2, y2)
  {
    var rs := Perimeter(size, size);
    var k := if y1 == 0 && y2 == 0 then 0 else if y1 == size && y2 == size then 1
             else if x1 == 0 && x2 == 0 then 2 else 3;
    assert Covers(rs[k], x1, y1) && Covers(rs[k], x2, y2);
  }

  /** The boundary rectangles cover the whole edge of an even-sized field. */
  lemma PerimeterCoversBoundary(width: int, height: int, x: int, y: int)
    requires width > 0 && height > 0 && width % 2 == 0 && height % 2 == 0
    requires 0 <= x <= width && 0 <= y <= height
    requires x == 0 || x == width || y == 0 || y == height
    ensures exists r :: r in Perimeter(width, height) && Covers(r, x, y)
  {
    var rs := Perimeter(width, height);
    if y == 0 {
      assert Covers(rs[0], x, y);
    } else if y == height {
      assert Covers(rs[1], x, y);
    } else if x == 0 {
      assert Covers(rs[2], x, y);
    } else {
      assert Covers(rs[3], x, y);
    }
  }
}
