/**
 * Rectangular grids as sequences of rows, the cell moves the solvers emit,
 * and the grid updates those moves perform.
 */
module Grids {
  import opened Wrappers
  import opened Pieces

  /** A board's codes, row by row. */
  type Grid = seq<seq<Code>>

  /** The explored grid: None stands for the blank ' ' of an unfixed cell. */
  type Explored = seq<seq<Option<Code>>>

  predicate Shaped<T>(g: seq<seq<T>>, rows: int, cols: int)
  {
    |g| == rows && forall i :: 0 <= i < |g| ==> |g[i]| == cols
  }

  predicate InGrid(rows: int, cols: int, row: int, col: int)
  {
    0 <= row < rows && 0 <= col < cols
  }

  /** A fresh rows x cols grid holding v everywhere. */
  function Filled<T>(rows: nat, cols: nat, v: T): (g: seq<seq<T>>)
    ensures Shaped(g, rows, cols)
    ensures forall i, j :: 0 <= i < rows && 0 <= j < cols ==> g[i][j] == v
  {
    seq(rows, _ => seq(cols, _ => v))
  }

  /** The grid with one cell replaced. */
  function SetCell<T>(g: seq<seq<T>>, row: int, col: int, v: T): (r: seq<seq<T>>)
    requires 0 <= row < |g| && 0 <= col < |g[row]|
  {
    g[row := g[row][col := v]]
  }

  /** SetCell keeps the shape and changes the one cell it names, and no other. */
  lemma SetCellMeaning<T>(g: seq<seq<T>>, rows: int, cols: int, row: int, col: int, v: T)
    requires Shaped(g, rows, cols) && InGrid(rows, cols, row, col)
    ensures Shaped(SetCell(g, row, col, v), rows, cols)
    ensures forall i, j :: InGrid(rows, cols, i, j) ==>
      SetCell(g, row, col, v)[i][j] == if (i, j) == (row, col) then v else g[i][j]
  {
  }

  /** One tuple (code, row, col) of an action. */
  datatype Move = Move(code: Code, row: int, col: int)

  /** A (row, col) position. */
  type Cell = (int, int)

  function CellOf(m: Move): Cell { (m.row, m.col) }

  predicate CellsInGrid(cells: seq<Cell>, rows: int, cols: int)
  {
    forall k :: 0 <= k < |cells| ==> InGrid(rows, cols, cells[k].0, cells[k].1)
  }

  predicate MovesInGrid(ms: seq<Move>, rows: int, cols: int)
  {
    forall k :: 0 <= k < |ms| ==> InGrid(rows, cols, ms[k].row, ms[k].col)
  }

  /** The code of the last move in ms that targets (row, col), if any. */
  function LastAt(ms: seq<Move>, row: int, col: int): (r: Option<Code>)
    ensures r.Some? <==> exists k :: 0 <= k < |ms| && ms[k].row == row && ms[k].col == col
    ensures r.Some? ==> exists k :: 0 <= k < |ms| && ms[k] == Move(r.value, row, col)
  {
    if |ms| == 0 then None
    else if ms[|ms| - 1].row == row && ms[|ms| - 1].col == col then
      Some(ms[|ms| - 1].code)
    else
      var r := LastAt(ms[..|ms| - 1], row, col);
      assert forall k :: 0 <= k < |ms| - 1 ==> ms[..|ms| - 1][k] == ms[k];
      r
  }

  /** Every move targets a cell of g. */
  predicate MovesFit<T>(ms: seq<Move>, g: seq<seq<T>>)
  {
    forall k :: 0 <= k < |ms| ==> 0 <= ms[k].row < |g| && 0 <= ms[k].col < |g[ms[k].row]|
  }

  /** Writes every move's code into a grid of codes, in order. */
  function Place(g: Grid, ms: seq<Move>): (r: Grid)
    requires MovesFit(ms, g)
    ensures |r| == |g| && forall i {:trigger r[i]} :: 0 <= i < |g| ==> |r[i]| == |g[i]|
    decreases |ms|
  {
    if |ms| == 0 then g
    else
      var m := ms[0];
      var g1 := SetCell(g, m.row, m.col, m.code);
      assert MovesFit(ms[1..], g1) by {
        forall k | 0 <= k < |ms[1..]| ensures 0 <= ms[1..][k].row < |g1| && 0 <= ms[1..][k].col < |g1[ms[1..][k].row]| {
          assert ms[1..][k] == ms[k + 1];
        }
      }
      Place(g1, ms[1..])
  }

  /** Marks every move's cell as explored with the move's code, in order. */
  function Commit(e: Explored, ms: seq<Move>): (r: Explored)
    requires MovesFit(ms, e)
    ensures |r| == |e| && forall i {:trigger r[i]} :: 0 <= i < |e| ==> |r[i]| == |e[i]|
    decreases |ms|
  {
    if |ms| == 0 then e
    else
      var m := ms[0];
      var e1 := SetCell(e, m.row, m.col, Some(m.code));
      assert MovesFit(ms[1..], e1) by {
        forall k | 0 <= k < |ms[1..]| ensures 0 <= ms[1..][k].row < |e1| && 0 <= ms[1..][k].col < |e1[ms[1..][k].row]| {
          assert ms[1..][k] == ms[k + 1];
        }
      }
      Commit(e1, ms[1..])
  }

  /** Committing one more move is one more cell write. */
  lemma {:induction false} CommitSnoc(e: Explored, ms: seq<Move>, m: Move)
    requires MovesFit(ms + [m], e)
    ensures MovesFit(ms, e)
    ensures 0 <= m.row < |Commit(e, ms)| && 0 <= m.col < |Commit(e, ms)[m.row]|
    ensures Commit(e, ms + [m]) == SetCell(Commit(e, ms), m.row, m.col, Some(m.code))
    decreases |ms|
  {
    assert forall k :: 0 <= k < |ms| ==> ms[k] == (ms + [m])[k];
    assert m == (ms + [m])[|ms|];
    if |ms| > 0 {
      var e1 := SetCell(e, ms[0].row, ms[0].col, Some(ms[0].code));
      assert (ms + [m])[1..] == ms[1..] + [m];
      assert MovesFit(ms[1..] + [m], e1) by {
        forall k | 0 <= k < |ms[1..] + [m]|
          ensures 0 <= (ms[1..] + [m])[k].row < |e1| && 0 <= (ms[1..] + [m])[k].col < |e1[(ms[1..] + [m])[k].row]|
        {
          assert (ms[1..] + [m])[k] == (ms + [m])[k + 1];
        }
      }
      CommitSnoc(e1, ms[1..], m);
    }
  }

  /** Placing one more move is one more cell write. */
  lemma {:induction false} PlaceSnoc(g: Grid, ms: seq<Move>, m: Move)
    requires MovesFit(ms + [m], g)
    ensures MovesFit(ms, g)
    ensures 0 <= m.row < |Place(g, ms)| && 0 <= m.col < |Place(g, ms)[m.row]|
    ensures Place(g, ms + [m]) == SetCell(Place(g, ms), m.row, m.col, m.code)
    decreases |ms|
  {
    assert forall k :: 0 <= k < |ms| ==> ms[k] == (ms + [m])[k];
    assert m == (ms + [m])[|ms|];
    if |ms| > 0 {
      var g1 := SetCell(g, ms[0].row, ms[0].col, ms[0].code);
      assert (ms + [m])[1..] == ms[1..] + [m];
      assert MovesFit(ms[1..] + [m], g1) by {
        forall k | 0 <= k < |ms[1..] + [m]|
          ensures 0 <= (ms[1..] + [m])[k].row < |g1| && 0 <= (ms[1..] + [m])[k].col < |g1[(ms[1..] + [m])[k].row]|
        {
          assert (ms[1..] + [m])[k] == (ms + [m])[k + 1];
        }
      }
      PlaceSnoc(g1, ms[1..], m);
    }
  }

  /** One more move inside g keeps a list of moves inside g. */
  lemma MovesFitSnoc<T>(ms: seq<Move>, m: Move, g: seq<seq<T>>)
    requires MovesFit(ms, g) && 0 <= m.row < |g| && 0 <= m.col < |g[m.row]|
    ensures MovesFit(ms + [m], g)
  {
    assert forall k :: 0 <= k < |ms| ==> (ms + [m])[k] == ms[k];
  }

  /** Moves inside one grid are inside every grid of the same shape. */
  lemma MovesFitReshape<S, T>(ms: seq<Move>, a: seq<seq<S>>, b: seq<seq<T>>, rows: int, cols: int)
    requires Shaped(a, rows, cols) && Shaped(b, rows, cols) && MovesFit(ms, a)
    ensures MovesFit(ms, b)
  {
  }

  /** Committing two lists of moves is committing one after the other. */
  lemma {:induction false} CommitConcat(e: Explored, a: seq<Move>, b: seq<Move>)
    requires MovesFit(a, e) && MovesFit(b, e)
    ensures MovesFit(a + b, e) && MovesFit(b, Commit(e, a))
    ensures Commit(e, a + b) == Commit(Commit(e, a), b)
    decreases |a|
  {
    assert forall k :: 0 <= k < |a| ==> (a + b)[k] == a[k];
    assert forall k :: |a| <= k < |a + b| ==> (a + b)[k] == b[k - |a|];
    if |a| == 0 {
      assert a + b == b;
    } else {
      var e1 := SetCell(e, a[0].row, a[0].col, Some(a[0].code));
      assert (a + b)[1..] == a[1..] + b;
      assert MovesFit(a[1..], e1) by {
        forall k | 0 <= k < |a[1..]| ensures 0 <= a[1..][k].row < |e1| && 0 <= a[1..][k].col < |e1[a[1..][k].row]| {
          assert a[1..][k] == a[k + 1];
        }
      }
      CommitConcat(e1, a[1..], b);
    }
  }

  /**
   * After a commit, a cell holds the code of the last move that targets
   * it, and is unchanged when no move does.
   */
  lemma {:induction false} CommitAt(e: Explored, ms: seq<Move>, i: int, j: int)
    requires MovesFit(ms, e) && 0 <= i < |e| && 0 <= j < |e[i]|
    ensures Commit(e, ms)[i][j] == if LastAt(ms, i, j).Some? then LastAt(ms, i, j) else e[i][j]
    decreases |ms|
  {
    if |ms| > 0 {
      var init := ms[..|ms| - 1];
      var m := ms[|ms| - 1];
      assert ms == init + [m];
      CommitSnoc(e, init, m);
      CommitAt(e, init, i, j);
    }
  }

  /** Two grids of one shape that agree cell by cell are equal. */
  lemma SameGrid<T>(a: seq<seq<T>>, b: seq<seq<T>>, rows: int, cols: int)
    requires Shaped(a, rows, cols) && Shaped(b, rows, cols)
    requires forall i, j :: 0 <= i < rows && 0 <= j < cols ==> a[i][j] == b[i][j]
    ensures a == b
  {
    forall i | 0 <= i < rows ensures a[i] == b[i] {
      assert forall j :: 0 <= j < cols ==> a[i][j] == b[i][j];
    }
  }

  // ---------------------------------------------------------------------
  // Grids held in two-dimensional arrays
  // ---------------------------------------------------------------------

  /** The elements a[i, j], a[i, j + 1], ... of row i of an array. */
  function RowFrom<T>(a: array2<T>, i: nat, j: nat): (r: seq<T>)
    requires i < a.Length0 && j <= a.Length1
    reads a
    decreases a.Length1 - j
  {
    if j == a.Length1 then [] else [a[i, j]] + RowFrom(a, i, j + 1)
  }

  /** The rows i, i + 1, ... of an array. */
  function RowsFrom<T>(a: array2<T>, i: nat): (r: seq<seq<T>>)
    requires i <= a.Length0
    reads a
    decreases a.Length0 - i
  {
    if i == a.Length0 then [] else [RowFrom(a, i, 0)] + RowsFrom(a, i + 1)
  }

  /** An array's rows, top to bottom. */
  function Rows<T>(a: array2<T>): (r: seq<seq<T>>)
    reads a
    ensures Shaped(r, a.Length0, a.Length1)
  {
    RowsFromAll(a);
    RowsFrom(a, 0)
  }

  lemma {:induction false} RowFromMeaning<T>(a: array2<T>, i: nat, j: nat)
    requires i < a.Length0 && j <= a.Length1
    ensures |RowFrom(a, i, j)| == a.Length1 - j
    ensures forall k :: j <= k < a.Length1 ==> RowFrom(a, i, j)[k - j] == a[i, k]
    decreases a.Length1 - j
  {
    if j < a.Length1 {
      RowFromMeaning(a, i, j + 1);
    }
  }

  lemma {:induction false} RowsFromMeaning<T>(a: array2<T>, i: nat)
    requires i <= a.Length0
    ensures |RowsFrom(a, i)| == a.Length0 - i
    ensures forall k :: i <= k < a.Length0 ==> RowsFrom(a, i)[k - i] == RowFrom(a, k, 0)
    decreases a.Length0 - i
  {
    if i < a.Length0 {
      RowsFromMeaning(a, i + 1);
    }
  }

  lemma RowsFromAll<T>(a: array2<T>)
    ensures Shaped(RowsFrom(a, 0), a.Length0, a.Length1)
    ensures forall i, j :: 0 <= i < a.Length0 && 0 <= j < a.Length1 ==> RowsFrom(a, 0)[i][j] == a[i, j]
  {
    RowsFromMeaning(a, 0);
    forall i | 0 <= i < a.Length0
      ensures |RowsFrom(a, 0)[i]| == a.Length1
      ensures forall j :: 0 <= j < a.Length1 ==> RowsFrom(a, 0)[i][j] == a[i, j]
    {
      RowFromMeaning(a, i, 0);
    }
  }

  /** The rows of an array hold its elements. */
  lemma RowsMeaning<T>(a: array2<T>)
    ensures forall i, j :: 0 <= i < a.Length0 && 0 <= j < a.Length1 ==> Rows(a)[i][j] == a[i, j]
  {
    RowsFromAll(a);
  }

  /** A fresh array holding the grid g. */
  method FromRows<T>(g: seq<seq<T>>, rows: nat, cols: nat) returns (a: array2<T>)
    requires Shaped(g, rows, cols)
    ensures fresh(a) && a.Length0 == rows && a.Length1 == cols
    ensures Rows(a) == g
  {
    a := new T[rows, cols]((i, j) requires 0 <= i < rows && 0 <= j < cols => g[i][j]);
    RowsMeaning(a);
    SameGrid(Rows(a), g, rows, cols);
  }
}
