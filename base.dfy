/**
 * The base-line board (base/pipe.py): pieces are fixed by listing their
 * cells in valid_positions; validateBorders straightens the border before
 * any search; the neighbour step keeps every code of the first neighbour
 * list once per list that holds it; actions scans the board in row-major
 * order, fixing each cell left with a single candidate; the goal is a
 * full list of fixed cells.
 */
module Base {
  import opened Wrappers
  import opened Pieces
  import opened Tables
  import opened BaseTables
  import opened Boundary
  import opened Grids
  import opened Candidates
  import opened Dfs
  import opened Traversal
  import opened Text
  import opened BaseNeighbours
  import opened BaseCopies
  import opened BaseBorders
  import opened BaseGoals

  // ---------------------------------------------------------------------
  // get_valid_rotations
  // ---------------------------------------------------------------------

  /**
   * get_valid_rotations: the boundary list, then the neighbour copies,
   * combined as the final solver does, paired with the cell.
   */
  function BaseCandidates(g: Grid, vp: seq<Cell>, rows: int, cols: int, row: int, col: int)
    : (r: Result<seq<Move>, Failure>)
    requires Shaped(g, rows, cols) && InGrid(rows, cols, row, col)
  {
    var p := g[row][col];
    var pos := BoundaryActions(p, rows, cols, row, col);
    if pos.None? then Err(CornerTableNone)
    else
      var neigh := FirstListCopies(NeighbourLists(g, vp, rows, cols, row, col), p);
      if neigh.Err? then Err(neigh.error)
      else Ok(AtCell(Combine(pos.value, neigh.value), row, col))
  }

  /** The candidates fail only on the two dead ends the final solver has. */
  lemma BaseCandidatesFail(g: Grid, vp: seq<Cell>, rows: int, cols: int, row: int, col: int)
    requires Shaped(g, rows, cols) && InGrid(rows, cols, row, col)
    requires BaseCandidates(g, vp, rows, cols, row, col).Err?
    ensures Fails(g, FixedView(g, vp, rows, cols), rows, cols, row, col)
  {
    var ls := NeighbourLists(g, vp, rows, cols, row, col);
    if BoundaryActions(g[row][col], rows, cols, row, col).Some? {
      FirstListCopiesMeaning(ls, g[row][col]);
      NeighbourListsMeaning(g, vp, rows, cols, row, col);
    }
  }

  /**
   * Each candidate is a move at the cell to a code of the first neighbour
   * list other than the piece itself, and on the border a code of the
   * boundary list as well.
   */
  lemma BaseCandidateAt(g: Grid, vp: seq<Cell>, rows: int, cols: int, row: int, col: int, k: int)
    requires Shaped(g, rows, cols) && InGrid(rows, cols, row, col)
    requires BaseCandidates(g, vp, rows, cols, row, col).Ok?
    requires 0 <= k < |BaseCandidates(g, vp, rows, cols, row, col).value|
    ensures var m := BaseCandidates(g, vp, rows, cols, row, col).value[k];
      var ls := NeighbourLists(g, vp, rows, cols, row, col);
      && m.row == row && m.col == col
      && |ls| > 0 && ls[0].Some? && m.code in ls[0].value && m.code != g[row][col]
      && (OnBorder(rows, cols, row, col) ==> m.code in BoundaryActions(g[row][col], rows, cols, row, col).value)
  {
    var p := g[row][col];
    var pos := BoundaryActions(p, rows, cols, row, col).value;
    var ls := NeighbourLists(g, vp, rows, cols, row, col);
    var neigh := FirstListCopies(ls, p).value;
    FirstListCopiesMeaning(ls, p);
    var codes := Combine(pos, neigh);
    assert codes[k] in codes;
  }

  /**
   * The candidates are moves at the cell to another orientation of the
   * same piece; there are none when no neighbour is fixed; on a grid of at
   * least 2 x 2 each points inside the grid; and each agrees with the
   * first fixed neighbour in the order up, down, left, right.
   */
  lemma BaseCandidatesMeaning(g: Grid, vp: seq<Cell>, rows: int, cols: int, row: int, col: int)
    requires Shaped(g, rows, cols) && InGrid(rows, cols, row, col)
    requires BaseCandidates(g, vp, rows, cols, row, col).Ok?
    ensures var r := BaseCandidates(g, vp, rows, cols, row, col).value;
      && (forall k :: 0 <= k < |r| ==>
            && r[k].row == row && r[k].col == col
            && r[k].code != g[row][col]
            && FamilyOf(r[k].code) == FamilyOf(g[row][col]))
      && (|NeighbourLists(g, vp, rows, cols, row, col)| == 0 ==> r == [])
      && (rows >= 2 && cols >= 2 ==> forall k :: 0 <= k < |r| ==> PointsInside(r[k].code, rows, cols, row, col))
      && (FixedSide(vp, rows, cols, row, col, Up) ==>
            forall k :: 0 <= k < |r| ==> Agrees(r[k].code, Up, g[row - 1][col]))
  {
    var r := BaseCandidates(g, vp, rows, cols, row, col).value;
    NeighbourListsMeaning(g, vp, rows, cols, row, col);
    forall k | 0 <= k < |r|
      ensures && r[k].row == row && r[k].col == col
              && r[k].code != g[row][col]
              && FamilyOf(r[k].code) == FamilyOf(g[row][col])
              && (rows >= 2 && cols >= 2 ==> PointsInside(r[k].code, rows, cols, row, col))
              && (FixedSide(vp, rows, cols, row, col, Up) ==> Agrees(r[k].code, Up, g[row - 1][col]))
    {
      BaseCandidateAt(g, vp, rows, cols, row, col, k);
    }
  }

  /**
   * With the left table as written, a candidate need not agree with the
   * side whose list comes first: a BC right of a fixed VD, which opens
   * right, is offered only BD, which has no left connector.
   */
  lemma BaseCandidatesLeftMismatch()
    ensures Shaped([[FC, FC, FC], [VD, BC, FC], [FC, FC, FC]], 3, 3)
    ensures BaseCandidates([[FC, FC, FC], [VD, BC, FC], [FC, FC, FC]], [(1, 0)], 3, 3, 1, 1) == Ok([Move(BD, 1, 1)])
    ensures !Agrees(BD, Left, VD)
  {
    MismatchLists();
    MismatchCopies();
    assert BoundaryActions(BC, 3, 3, 1, 1) == Some([]);
    assert Combine([], [BD]) == [BD];
    assert AtCell([BD], 1, 1) == [Move(BD, 1, 1)];
  }

  /** Only the left neighbour is fixed, so its table as written is the one list. */
  lemma MismatchLists()
    ensures Shaped([[FC, FC, FC], [VD, BC, FC], [FC, FC, FC]], 3, 3)
    ensures NeighbourLists([[FC, FC, FC], [VD, BC, FC], [FC, FC, FC]], [(1, 0)], 3, 3, 1, 1) == [Some([BD])]
  {
    var g := [[FC, FC, FC], [VD, BC, FC], [FC, FC, FC]];
    var vp := [(1, 0)];
    LeftTableMissesElbows();
    assert SideTable(g, 3, 3, 1, 1, Left) == Some([BD]);
    assert !FixedSide(vp, 3, 3, 1, 1, Up) && !FixedSide(vp, 3, 3, 1, 1, Down);
    assert FixedSide(vp, 3, 3, 1, 1, Left) && !FixedSide(vp, 3, 3, 1, 1, Right);
  }

  /** The one list [BD] gives the one copy BD. */
  lemma MismatchCopies()
    ensures FirstListCopies([Some([BD])], BC) == Ok([BD])
  {
    assert Copies([BD], [Some([BD])], BC) == [BD];
  }

  // ---------------------------------------------------------------------
  // actions
  // ---------------------------------------------------------------------

  /** The moves ms, then the outcome of the rest of the scan. */
  function Then(ms: seq<Move>, r: (Result<seq<Move>, Failure>, seq<Cell>)): (Result<seq<Move>, Failure>, seq<Cell>)
  {
    (if r.0.Err? then r.0 else Ok(ms + r.0.value), r.1)
  }

  lemma ThenNothing(r: (Result<seq<Move>, Failure>, seq<Cell>))
    ensures Then([], r) == r
  {
    if r.0.Ok? {
      assert [] + r.0.value == r.0.value;
    }
  }

  lemma ThenThen(a: seq<Move>, b: seq<Move>, r: (Result<seq<Move>, Failure>, seq<Cell>))
    ensures Then(a, Then(b, r)) == Then(a + b, r)
  {
    if r.0.Ok? {
      assert a + (b + r.0.value) == (a + b) + r.0.value;
    }
  }

  /**
   * What actions asks of each cell it visits: get_valid_rotations of the
   * cell, given the cells fixed so far.
   */
  type Rotations = (seq<Cell>, int, int) -> Result<seq<Move>, Failure>

  /** get_valid_rotations on the board g, for every cell of it. */
  function BoardRotations(g: Grid, rows: int, cols: int): Rotations
    requires Shaped(g, rows, cols)
  {
    (v: seq<Cell>, i: int, j: int) =>
      if InGrid(rows, cols, i, j) then BaseCandidates(g, v, rows, cols, i, j) else Ok([])
  }

  /**
   * actions from cell (row, col) on, in row-major order: the candidates
   * of every cell not yet fixed, one after the other, with the list of
   * fixed cells as get_valid_rotations leaves it; the first failure ends
   * the scan.
   */
  function Scan(cand: Rotations, vp: seq<Cell>, rows: int, cols: int, row: int, col: int)
    : (r: (Result<seq<Move>, Failure>, seq<Cell>))
    requires 0 <= row && 0 <= col <= cols
    decreases rows - row, cols - col
  {
    if row >= rows then (Ok([]), vp)
    else if col == cols then Scan(cand, vp, rows, cols, row + 1, 0)
    else if (row, col) in vp then Scan(cand, vp, rows, cols, row, col + 1)
    else
      var c := cand(vp, row, col);
      if c.Err? then (Err(c.error), vp)
      else
        var vp1 := if |c.value| == 1 then Validated(vp, (row, col)) else vp;
        Then(c.value, Scan(cand, vp1, rows, cols, row, col + 1))
  }

  /** Cell a comes no later than cell b in row-major order. */
  predicate NotAfter(a: Cell, b: Cell)
  {
    a.0 < b.0 || (a.0 == b.0 && a.1 <= b.1)
  }

  /** The moves come in row-major order of their cells. */
  predicate RowMajor(ms: seq<Move>)
  {
    forall k, l :: 0 <= k < l < |ms| ==> NotAfter(CellOf(ms[k]), CellOf(ms[l]))
  }

  /** Candidates c, if any, turn the piece at (i, j) to another orientation of it. */
  predicate TurnsAt(g: Grid, rows: int, cols: int, i: int, j: int, c: Result<seq<Move>, Failure>)
    requires Shaped(g, rows, cols) && InGrid(rows, cols, i, j)
  {
    c.Ok? ==> forall k :: 0 <= k < |c.value| ==>
      && c.value[k].row == i && c.value[k].col == j
      && c.value[k].code != g[i][j] && FamilyOf(c.value[k].code) == FamilyOf(g[i][j])
  }

  /** Every cell's candidates turn its piece, whatever is fixed. */
  ghost predicate Turns(cand: Rotations, g: Grid, rows: int, cols: int)
    requires Shaped(g, rows, cols)
  {
    forall v, i, j :: InGrid(rows, cols, i, j) ==> TurnsAt(g, rows, cols, i, j, cand(v, i, j))
  }

  /** Every cell's candidates fail only on a dead end of the final solver. */
  ghost predicate FailsOnlyDead(cand: Rotations, g: Grid, rows: int, cols: int)
    requires Shaped(g, rows, cols)
  {
    forall v, i, j :: InGrid(rows, cols, i, j) && cand(v, i, j).Err? ==>
      Fails(g, FixedView(g, v, rows, cols), rows, cols, i, j)
  }

  /** On a cell of the board, the board's rotations are get_valid_rotations. */
  lemma BoardRotationsAt(g: Grid, vp: seq<Cell>, rows: int, cols: int, row: int, col: int)
    requires Shaped(g, rows, cols) && InGrid(rows, cols, row, col)
    ensures BoardRotations(g, rows, cols)(vp, row, col) == BaseCandidates(g, vp, rows, cols, row, col)
  {
  }

  /** get_valid_rotations turns pieces and fails only on dead ends. */
  lemma BoardRotationsMeaning(g: Grid, rows: int, cols: int)
    requires Shaped(g, rows, cols)
    ensures Turns(BoardRotations(g, rows, cols), g, rows, cols)
    ensures FailsOnlyDead(BoardRotations(g, rows, cols), g, rows, cols)
  {
    var cand := BoardRotations(g, rows, cols);
    forall v, i, j | InGrid(rows, cols, i, j) ensures TurnsAt(g, rows, cols, i, j, cand(v, i, j)) {
      if cand(v, i, j).Ok? {
        BaseCandidatesMeaning(g, v, rows, cols, i, j);
      }
    }
    forall v, i, j | InGrid(rows, cols, i, j) && cand(v, i, j).Err?
      ensures Fails(g, FixedView(g, v, rows, cols), rows, cols, i, j)
    {
      BaseCandidatesFail(g, v, rows, cols, i, j);
    }
  }

  /**
   * A move actions may offer when it scans from (row, col) with the
   * cells vp fixed: at a cell of the board not fixed, not before the
   * start, to another orientation of the piece there.
   */
  predicate ScanMove(g: Grid, vp: seq<Cell>, rows: int, cols: int, row: int, col: int, m: Move)
    requires Shaped(g, rows, cols)
  {
    && InGrid(rows, cols, m.row, m.col)
    && CellOf(m) !in vp
    && NotAfter((row, col), CellOf(m))
    && m.code != g[m.row][m.col]
    && FamilyOf(m.code) == FamilyOf(g[m.row][m.col])
  }

  /**
   * The scan only adds to the fixed list, keeping its entries in place
   * and naming no cell twice.
   */
  lemma {:induction false} ScanGrown(cand: Rotations, vp: seq<Cell>, rows: int, cols: int, row: int, col: int)
    requires 0 <= row && 0 <= col <= cols
    ensures Grown(vp, Scan(cand, vp, rows, cols, row, col).1)
    decreases rows - row, cols - col
  {
    var r := Scan(cand, vp, rows, cols, row, col).1;
    if row >= rows {
      assert r == vp;
    } else if col == cols {
      ScanGrown(cand, vp, rows, cols, row + 1, 0);
    } else if (row, col) in vp {
      ScanGrown(cand, vp, rows, cols, row, col + 1);
    } else if cand(vp, row, col).Err? {
      assert r == vp;
    } else {
      var c := cand(vp, row, col).value;
      var vp1 := if |c| == 1 then Validated(vp, (row, col)) else vp;
      assert r == Scan(cand, vp1, rows, cols, row, col + 1).1;
      ValidatedMeaning(vp, (row, col));
      ScanGrown(cand, vp1, rows, cols, row, col + 1);
      GrownTrans(vp, vp1, r);
    }
  }

  /** The scan fixes only cells of the board not before its start. */
  lemma {:induction false} ScanAdds(cand: Rotations, vp: seq<Cell>, rows: int, cols: int, row: int, col: int, x: Cell)
    requires 0 <= row && 0 <= col <= cols
    requires x in Scan(cand, vp, rows, cols, row, col).1 && x !in vp
    ensures InGrid(rows, cols, x.0, x.1) && NotAfter((row, col), x)
    decreases rows - row, cols - col
  {
    if col == cols {
      ScanAdds(cand, vp, rows, cols, row + 1, 0, x);
    } else if (row, col) in vp {
      ScanAdds(cand, vp, rows, cols, row, col + 1, x);
    } else {
      var c := cand(vp, row, col).value;
      var vp1 := if |c| == 1 then Validated(vp, (row, col)) else vp;
      ValidatedMeaning(vp, (row, col));
      if x != (row, col) {
        ScanAdds(cand, vp1, rows, cols, row, col + 1, x);
      }
    }
  }

  /**
   * When every cell's candidates turn its piece, every move of a
   * successful scan is one ScanMove allows, and the moves come in
   * row-major order.
   */
  lemma {:induction false} ScanMoves(cand: Rotations, g: Grid, vp: seq<Cell>, rows: int, cols: int, row: int, col: int)
    requires Shaped(g, rows, cols) && Turns(cand, g, rows, cols) && 0 <= row && 0 <= col <= cols
    ensures var r := Scan(cand, vp, rows, cols, row, col);
      r.0.Ok? ==>
        && (forall k :: 0 <= k < |r.0.value| ==> ScanMove(g, vp, rows, cols, row, col, r.0.value[k]))
        && RowMajor(r.0.value)
    decreases rows - row, cols - col
  {
    if row >= rows {
    } else if col == cols {
      ScanMoves(cand, g, vp, rows, cols, row + 1, 0);
    } else if (row, col) in vp {
      ScanMoves(cand, g, vp, rows, cols, row, col + 1);
    } else if cand(vp, row, col).Ok? {
      var c := cand(vp, row, col).value;
      var vp1 := if |c| == 1 then Validated(vp, (row, col)) else vp;
      var rest := Scan(cand, vp1, rows, cols, row, col + 1);
      if rest.0.Ok? {
        assert TurnsAt(g, rows, cols, row, col, cand(vp, row, col));
        ValidatedMeaning(vp, (row, col));
        ScanMoves(cand, g, vp1, rows, cols, row, col + 1);
        JoinMoves(g, vp, vp1, rows, cols, row, col, c, rest.0.value);
      }
    }
  }

  /** The candidates of the start cell, then the moves of the rest of the scan. */
  lemma JoinMoves(g: Grid, vp: seq<Cell>, vp1: seq<Cell>, rows: int, cols: int, row: int, col: int,
                  c: seq<Move>, rest: seq<Move>)
    requires Shaped(g, rows, cols) && InGrid(rows, cols, row, col) && (row, col) !in vp
    requires forall x :: x in vp ==> x in vp1
    requires forall k :: 0 <= k < |c| ==>
      && c[k].row == row && c[k].col == col
      && c[k].code != g[row][col] && FamilyOf(c[k].code) == FamilyOf(g[row][col])
    requires forall k :: 0 <= k < |rest| ==> ScanMove(g, vp1, rows, cols, row, col + 1, rest[k])
    requires RowMajor(rest)
    ensures forall k :: 0 <= k < |c + rest| ==> ScanMove(g, vp, rows, cols, row, col, (c + rest)[k])
    ensures RowMajor(c + rest)
  {
    var ms := c + rest;
    forall k | 0 <= k < |ms| ensures ScanMove(g, vp, rows, cols, row, col, ms[k]) {
      if k >= |c| {
        assert ms[k] == rest[k - |c|];
      }
    }
    forall k, l | 0 <= k < l < |ms| ensures NotAfter(CellOf(ms[k]), CellOf(ms[l])) {
      if l >= |c| {
        assert ms[l] == rest[l - |c|];
        if k >= |c| {
          assert ms[k] == rest[k - |c|];
        }
      }
    }
  }

  /**
   * When every cell's candidates fail only on dead ends, a scan that
   * fails has met a cell of the board, not fixed and not before the
   * start, where the candidates hit one of them.
   */
  lemma {:induction false} ScanFails(cand: Rotations, g: Grid, vp: seq<Cell>, rows: int, cols: int, row: int, col: int)
    requires Shaped(g, rows, cols) && FailsOnlyDead(cand, g, rows, cols) && 0 <= row && 0 <= col <= cols
    ensures var r := Scan(cand, vp, rows, cols, row, col);
      r.0.Err? ==> exists i, j ::
        && InGrid(rows, cols, i, j) && NotAfter((row, col), (i, j)) && (i, j) !in r.1
        && Fails(g, FixedView(g, r.1, rows, cols), rows, cols, i, j)
    decreases rows - row, cols - col
  {
    if row >= rows {
    } else if col == cols {
      ScanFails(cand, g, vp, rows, cols, row + 1, 0);
    } else if (row, col) in vp {
      ScanFails(cand, g, vp, rows, cols, row, col + 1);
    } else if cand(vp, row, col).Err? {
      assert NotAfter((row, col), (row, col));
    } else {
      var c := cand(vp, row, col).value;
      var vp1 := if |c| == 1 then Validated(vp, (row, col)) else vp;
      ScanFails(cand, g, vp1, rows, cols, row, col + 1);
    }
  }

  /**
   * actions on a board: it only adds cells of the board to the fixed
   * list, every move it offers turns a piece not fixed on entry, the moves
   * come in row-major order, and a failure is met at a cell that is not
   * fixed and is a dead end of the final solver.
   */
  lemma ActionsMeaning(g: Grid, vp: seq<Cell>, rows: int, cols: int)
    requires Shaped(g, rows, cols) && cols >= 0
    ensures var r := Scan(BoardRotations(g, rows, cols), vp, rows, cols, 0, 0);
      && Grown(vp, r.1)
      && (forall x :: x in r.1 && x !in vp ==> InGrid(rows, cols, x.0, x.1))
      && (r.0.Ok? ==>
            && (forall k :: 0 <= k < |r.0.value| ==> ScanMove(g, vp, rows, cols, 0, 0, r.0.value[k]))
            && RowMajor(r.0.value))
      && (r.0.Err? ==> exists i, j ::
            && InGrid(rows, cols, i, j) && (i, j) !in r.1
            && Fails(g, FixedView(g, r.1, rows, cols), rows, cols, i, j))
  {
    var cand := BoardRotations(g, rows, cols);
    BoardRotationsMeaning(g, rows, cols);
    ScanGrown(cand, vp, rows, cols, 0, 0);
    forall x | x in Scan(cand, vp, rows, cols, 0, 0).1 && x !in vp ensures InGrid(rows, cols, x.0, x.1) {
      ScanAdds(cand, vp, rows, cols, 0, 0, x);
    }
    ScanMoves(cand, g, vp, rows, cols, 0, 0);
    ScanFails(cand, g, vp, rows, cols, 0, 0);
  }

  // ---------------------------------------------------------------------
  // The board
  // ---------------------------------------------------------------------

  /**
   * Board: the grid, changed in place by validateBorders, and the list
   * valid_positions of the cells taken to be in their final orientation.
   */
  class BaseBoard {
    var grid: Grid
    var validPositions: seq<Cell>

    /** A grid of at least one row, all as wide as the first. */
    predicate Valid()
      reads this
    {
      |grid| > 0 && Shaped(grid, |grid|, |grid[0]|)
    }

    function Rows(): int
      reads this
    {
      |grid|
    }

    function Cols(): int
      reads this
      requires |grid| > 0
    {
      |grid[0]|
    }

    /** Board(grid): nothing fixed yet. */
    constructor (g: Grid)
      ensures grid == g && validPositions == []
    {
      grid := g;
      validPositions := [];
    }

    /** validatePipe: list the cell unless it is listed already. */
    method ValidatePipe(row: int, col: int)
      modifies this`validPositions
      ensures validPositions == Validated(old(validPositions), (row, col))
    {
      if (row, col) !in validPositions {
        validPositions := validPositions + [(row, col)];
      }
    }

    /** One step of validateBorders: turn the piece at the cell to code and fix the cell. */
    method Settle(row: int, col: int, code: Code)
      requires Valid() && InGrid(Rows(), Cols(), row, col)
      modifies this
      ensures (grid, validPositions) == Turned(old(grid), old(validPositions), row, col, code)
      ensures Valid() && Rows() == old(Rows()) && Cols() == old(Cols())
    {
      grid := SetCell(grid, row, col, code);
      ValidatePipe(row, col);
    }

    /** The column loop of validateBorders: the straights of the top and bottom rows laid horizontal. */
    method StraightenRows()
      requires Valid()
      modifies this
      ensures (grid, validPositions) == RowsLoop(old(grid), old(validPositions), old(Rows()), old(Cols()), 1)
      ensures Valid() && Rows() == old(Rows()) && Cols() == old(Cols())
    {
      ghost var g0, vp0 := grid, validPositions;
      var rows, cols := |grid|, |grid[0]|;
      var c := 1;
      while c < cols - 1
        invariant 1 <= c
        invariant Valid() && Shaped(grid, rows, cols)
        invariant RowsLoop(grid, validPositions, rows, cols, c) == RowsLoop(g0, vp0, rows, cols, 1)
        decreases cols - c
      {
        ghost var s := RowStep(grid, validPositions, rows, cols, c);
        if FamilyOf(grid[0][c]) == Straight {
          Settle(0, c, LH);
        }
        if FamilyOf(grid[rows - 1][c]) == Straight {
          Settle(rows - 1, c, LH);
        }
        assert (grid, validPositions) == s;
        c := c + 1;
      }
    }

    /** The row loop of validateBorders: the straights of the left and right columns laid vertical. */
    method StraightenColumns()
      requires Valid() && Cols() > 0
      modifies this
      ensures (grid, validPositions) == ColumnsLoop(old(grid), old(validPositions), old(Rows()), old(Cols()), 1)
      ensures Valid() && Rows() == old(Rows()) && Cols() == old(Cols())
    {
      ghost var g0, vp0 := grid, validPositions;
      var rows, cols := |grid|, |grid[0]|;
      var r := 1;
      while r < rows - 1
        invariant 1 <= r
        invariant Valid() && Shaped(grid, rows, cols)
        invariant ColumnsLoop(grid, validPositions, rows, cols, r) == ColumnsLoop(g0, vp0, rows, cols, 1)
        decreases rows - r
      {
        ghost var s := ColumnStep(grid, validPositions, rows, cols, r);
        if FamilyOf(grid[r][0]) == Straight {
          Settle(r, 0, LV);
        }
        if FamilyOf(grid[r][cols - 1]) == Straight {
          Settle(r, cols - 1, LV);
        }
        assert (grid, validPositions) == s;
        r := r + 1;
      }
    }

    /** One corner of validateBorders: an elbow there is turned to code and fixed. */
    method FixCorner(row: int, col: int, code: Code)
      requires Valid() && InGrid(Rows(), Cols(), row, col)
      modifies this
      ensures (grid, validPositions) == CornerStep(old(grid), old(validPositions), old(Rows()), old(Cols()), row, col, code)
      ensures Valid() && Rows() == old(Rows()) && Cols() == old(Cols())
    {
      if FamilyOf(grid[row][col]) == Elbow {
        Settle(row, col, code);
      }
    }

    /**
     * validateBorders. Its rows must not be empty: the source indexes
     * the first column of the corners.
     */
    method ValidateBorders()
      requires Valid() && Cols() > 0
      modifies this
      ensures (grid, validPositions) == Borders(old(grid), old(validPositions), old(Rows()), old(Cols()))
      ensures Valid() && Rows() == old(Rows()) && Cols() == old(Cols())
    {
      var rows, cols := |grid|, |grid[0]|;
      StraightenRows();
      StraightenColumns();
      FixCorner(0, 0, VB);
      FixCorner(0, cols - 1, VE);
      FixCorner(rows - 1, 0, VD);
      FixCorner(rows - 1, cols - 1, VC);
    }

    /**
     * get_valid_rotations_neighbors: the tables of the fixed neighbours,
     * then the double loop over the first of them.
     */
    method NeighbourRotations(row: int, col: int) returns (r: Result<seq<Code>, Failure>)
      requires Valid() && InGrid(Rows(), Cols(), row, col)
      ensures r == FirstListCopies(NeighbourLists(grid, validPositions, Rows(), Cols(), row, col), grid[row][col])
    {
      var ls := NeighbourTables(row, col);
      r := CopyLoop(ls, grid[row][col]);
    }

    /** The first half of get_valid_rotations_neighbors: the table of each fixed neighbour, in order. */
    method NeighbourTables(row: int, col: int) returns (ls: seq<Option<seq<Code>>>)
      requires Valid() && InGrid(Rows(), Cols(), row, col)
      ensures ls == NeighbourLists(grid, validPositions, Rows(), Cols(), row, col)
    {
      var up := SideTables(row, col, Up);
      var down := SideTables(row, col, Down);
      var left := SideTables(row, col, Left);
      var right := SideTables(row, col, Right);
      ls := up + down + left + right;
    }

    /** One of the four appends of get_valid_rotations_neighbors: the neighbour's table if it is fixed. */
    method SideTables(row: int, col: int, d: Dir) returns (s: seq<Option<seq<Code>>>)
      requires Valid() && InGrid(Rows(), Cols(), row, col)
      ensures s == Side(grid, validPositions, Rows(), Cols(), row, col, d)
    {
      var rows, cols := |grid|, |grid[0]|;
      var piece := grid[row][col];
      s := [];
      match d
      case Up =>
        if row > 0 && (row - 1, col) in validPositions {
          s := [Some(UpperNeighbourActions(piece, grid[row - 1][col]))];
        }
      case Down =>
        if row < rows - 1 && (row + 1, col) in validPositions {
          s := [LowerNeighbourActions(piece, grid[row + 1][col])];
        }
      case Left =>
        if col > 0 && (row, col - 1) in validPositions {
          s := [Some(LeftActionsAsWritten(piece, grid[row][col - 1]))];
        }
      case Right =>
        if col < cols - 1 && (row, col + 1) in validPositions {
          s := [Some(RightActionsAsWritten(piece, grid[row][col + 1]))];
        }
    }

    /**
     * get_valid_rotations: the boundary list, then the neighbour copies,
     * combined; a cell left with exactly one candidate is validated.
     */
    method ValidRotations(row: int, col: int) returns (r: Result<seq<Move>, Failure>)
      requires Valid() && InGrid(Rows(), Cols(), row, col)
      modifies this`validPositions
      ensures r == BaseCandidates(grid, old(validPositions), Rows(), Cols(), row, col)
      ensures validPositions ==
        if r.Ok? && |r.value| == 1 then Validated(old(validPositions), (row, col)) else old(validPositions)
    {
      var piece := grid[row][col];
      var pos := BoundaryActions(piece, |grid|, |grid[0]|, row, col);
      if pos.None? {
        return Err(CornerTableNone);
      }
      var neigh := NeighbourRotations(row, col);
      if neigh.Err? {
        return Err(neigh.error);
      }
      var moves := AtCell(Combine(pos.value, neigh.value), row, col);
      if |moves| == 1 {
        ValidatePipe(row, col);
      }
      return Ok(moves);
    }

    /**
     * actions: every cell not yet fixed, in row-major order, adds its
     * candidates, and may get fixed on the way.
     */
    method Actions() returns (r: Result<seq<Move>, Failure>)
      requires Valid()
      modifies this`validPositions
      ensures (r, validPositions) == Scan(BoardRotations(grid, Rows(), Cols()), old(validPositions), Rows(), Cols(), 0, 0)
    {
      ghost var cand := BoardRotations(grid, |grid|, |grid[0]|);
      var acc: seq<Move> := [];
      ThenNothing(Scan(cand, validPositions, |grid|, |grid[0]|, 0, 0));
      for row := 0 to |grid|
        invariant Then(acc, Scan(cand, validPositions, |grid|, |grid[0]|, row, 0)) ==
          Scan(cand, old(validPositions), |grid|, |grid[0]|, 0, 0)
      {
        var m := RowActions(row);
        if m.Err? {
          return Err(m.error);
        }
        ThenThen(acc, m.value, Scan(cand, validPositions, |grid|, |grid[0]|, row + 1, 0));
        acc := acc + m.value;
      }
      assert acc + [] == acc;
      return Ok(acc);
    }

    /** The inner loop of actions, over the cells of one row. */
    method RowActions(row: int) returns (r: Result<seq<Move>, Failure>)
      requires Valid() && 0 <= row < Rows()
      modifies this`validPositions
      ensures var cand := BoardRotations(grid, Rows(), Cols());
        Scan(cand, old(validPositions), Rows(), Cols(), row, 0) ==
          if r.Err? then (r, validPositions) else Then(r.value, Scan(cand, validPositions, Rows(), Cols(), row + 1, 0))
    {
      var rows, cols := |grid|, |grid[0]|;
      ghost var cand := BoardRotations(grid, rows, cols);
      var acc: seq<Move> := [];
      ThenNothing(Scan(cand, validPositions, rows, cols, row, 0));
      for col := 0 to cols
        invariant Then(acc, Scan(cand, validPositions, rows, cols, row, col)) == Scan(cand, old(validPositions), rows, cols, row, 0)
      {
        if (row, col) !in validPositions {
          BoardRotationsAt(grid, validPositions, rows, cols, row, col);
          var m := ValidRotations(row, col);
          if m.Err? {
            return Err(m.error);
          }
          ThenThen(acc, m.value, Scan(cand, validPositions, rows, cols, row, col + 1));
          acc := acc + m.value;
        }
      }
      return Ok(acc);
    }

    /** goal_test: some cells are fixed, and as many as the board has. */
    method GoalTest() returns (b: bool)
      requires Valid()
      ensures b == BaseGoal(validPositions, Rows(), Cols())
    {
      if |validPositions| > 0 {
        return |validPositions| == |grid| * |grid[0]|;
      }
      return false;
    }

    /**
     * result: a new board holding a copy of the grid with the action's
     * code at its cell, and a copy of the fixed list with that cell
     * validated. This board is not changed.
     */
    method Result(action: Move) returns (child: BaseBoard)
      requires Valid() && InGrid(Rows(), Cols(), action.row, action.col)
      ensures fresh(child) && child.Valid()
      ensures child.grid == SetCell(grid, action.row, action.col, action.code)
      ensures child.validPositions == Validated(validPositions, (action.row, action.col))
    {
      child := new BaseBoard(grid);
      child.validPositions := validPositions;
      SetCellMeaning(grid, |grid|, |grid[0]|, action.row, action.col, action.code);
      child.grid := SetCell(child.grid, action.row, action.col, action.code);
      child.ValidatePipe(action.row, action.col);
    }
  }
}
