/** Boolean matrices as the maze keeps them (rows of entries), and how many
    entries of each value they hold. */
module Matrix {

  /** A cell of the maze, or an entry of one of its wall matrices, by row and column. */
  datatype Pos = Pos(row: int, column: int)

  /** `m` has `rows` rows of `columns` entries each. */
  ghost predicate Rectangular(m: seq<seq<bool>>, rows: int, columns: int) {
    |m| == rows && forall i :: 0 <= i < |m| ==> |m[i]| == columns
  }

  /** The number of entries of `row` that equal `b`. */
  function CountRow(row: seq<bool>, b: bool): (k: nat)
    ensures k <= |row|
  {
    if row == [] then 0
    else CountRow(row[..|row| - 1], b) + (if row[|row| - 1] == b then 1 else 0)
  }

  /** The number of entries of `m` that equal `b`. */
  function Count(m: seq<seq<bool>>, b: bool): nat {
    if m == [] then 0 else Count(m[..|m| - 1], b) + CountRow(m[|m| - 1], b)
  }

  /** The positions of the `true` entries of `m`. */
  ghost function Marked(m: seq<seq<bool>>): set<Pos> {
    set i, j | 0 <= i < |m| && 0 <= j < |m[i]| && m[i][j] :: Pos(i, j)
  }

  /** The positions of the `true` entries of `row`, taken as row `i` of a matrix. */
  ghost function MarkedInRow(row: seq<bool>, i: int): set<Pos> {
    set j | 0 <= j < |row| && row[j] :: Pos(i, j)
  }

  /** Every entry of a row is either `true` or `false`. */
  lemma {:induction false} CountRowSplit(row: seq<bool>)
    ensures CountRow(row, true) + CountRow(row, false) == |row|
  {
    if row != [] {
      CountRowSplit(row[..|row| - 1]);
    }
  }

  /** Every entry of a `rows` by `columns` matrix is either `true` or `false`. */
  lemma {:induction false} CountSplit(m: seq<seq<bool>>, rows: nat, columns: nat)
    requires Rectangular(m, rows, columns)
    ensures Count(m, true) + Count(m, false) == rows * columns
  {
    if m != [] {
      CountSplit(m[..|m| - 1], rows - 1, columns);
      CountRowSplit(m[|m| - 1]);
      assert (rows - 1) * columns + columns == rows * columns;
    }
  }

  /** A row without an entry equal to `b` counts none. */
  lemma {:induction false} CountRowAbsent(row: seq<bool>, b: bool)
    requires forall j :: 0 <= j < |row| ==> row[j] != b
    ensures CountRow(row, b) == 0
  {
    if row != [] {
      var init := row[..|row| - 1];
      assert forall j :: 0 <= j < |init| ==> init[j] == row[j];
      CountRowAbsent(init, b);
    }
  }

  /** A matrix without an entry equal to `b` counts none. */
  lemma {:induction false} CountAbsent(m: seq<seq<bool>>, b: bool)
    requires forall i, j :: 0 <= i < |m| && 0 <= j < |m[i]| ==> m[i][j] != b
    ensures Count(m, b) == 0
  {
    if m != [] {
      var init := m[..|m| - 1];
      assert forall i :: 0 <= i < |init| ==> init[i] == m[i];
      CountAbsent(init, b);
      CountRowAbsent(m[|m| - 1], b);
    }
  }

  /** The set of `true` positions of a row has as many elements as the row has `true` entries. */
  lemma {:induction false} MarkedInRowCount(row: seq<bool>, i: int)
    ensures |MarkedInRow(row, i)| == CountRow(row, true)
  {
    if row != [] {
      var init := row[..|row| - 1];
      var last := |row| - 1;
      MarkedInRowCount(init, i);
      if row[last] {
        assert MarkedInRow(row, i) == MarkedInRow(init, i) + {Pos(i, last)} by {
          forall p | p in MarkedInRow(row, i) ensures p in MarkedInRow(init, i) + {Pos(i, last)} {
            var j :| 0 <= j < |row| && row[j] && p == Pos(i, j);
            if j < last { assert init[j] == row[j]; }
          }
        }
      } else {
        assert MarkedInRow(row, i) == MarkedInRow(init, i) by {
          forall p | p in MarkedInRow(row, i) ensures p in MarkedInRow(init, i) {
            var j :| 0 <= j < |row| && row[j] && p == Pos(i, j);
            assert init[j] == row[j];
          }
        }
      }
    }
  }

  /** The `true` positions of a non-empty matrix are those of all rows but
      the last, together with those of the last row. */
  lemma MarkedLastRow(m: seq<seq<bool>>)
    requires m != []
    ensures Marked(m) == Marked(m[..|m| - 1]) + MarkedInRow(m[|m| - 1], |m| - 1)
  {
    var init := m[..|m| - 1];
    forall p | p in Marked(m) ensures p in Marked(init) + MarkedInRow(m[|m| - 1], |m| - 1) {
      var i, j :| 0 <= i < |m| && 0 <= j < |m[i]| && m[i][j] && p == Pos(i, j);
      if i < |m| - 1 { assert init[i] == m[i]; }
    }
  }

  /** The set of `true` positions of a matrix has as many elements as the matrix has `true` entries. */
  lemma {:induction false} MarkedCount(m: seq<seq<bool>>)
    ensures |Marked(m)| == Count(m, true)
  {
    if m != [] {
      var init := m[..|m| - 1];
      var last := |m| - 1;
      MarkedCount(init);
      MarkedInRowCount(m[last], last);
      MarkedLastRow(m);
      assert Marked(init) !! MarkedInRow(m[last], last);
    }
  }
}
