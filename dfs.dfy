/**
 * The depth-first draft (base/dfs_recursiva.py): the pairwise side checks
 * behind Piece.isConnected, the board's list of fixed cells, its weighted
 * candidate tuples, and the goal test and result of its search.
 */
module Dfs {
  import opened Wrappers
  import opened Pieces
  import opened Tables
  import opened Boundary
  import opened Grids
  import opened Candidates

  // ---------------------------------------------------------------------
  // Side checks
  // ---------------------------------------------------------------------

  /**
   * The reference the side checks are measured against: no connector of the
   * cell leaves the grid, and on every side with a neighbour the cell opens
   * toward that neighbour exactly when the neighbour opens back.
   */
  predicate WellConnectedAt(g: Grid, rows: int, cols: int, row: int, col: int)
    requires Shaped(g, rows, cols) && InGrid(rows, cols, row, col)
  {
    var p := g[row][col];
    && PointsInside(p, rows, cols, row, col)
    && (row > 0 ==> Agrees(p, Up, g[row - 1][col]))
    && (row < rows - 1 ==> Agrees(p, Down, g[row + 1][col]))
    && (col > 0 ==> Agrees(p, Left, g[row][col - 1]))
    && (col < cols - 1 ==> Agrees(p, Right, g[row][col + 1]))
  }

  /**
   * is_connected_left as the draft writes it: its list of left neighbours
   * without a right connector holds FD, which has one, instead of FE.
   * On the left edge it checks the cell itself; is_edge_left holds for
   * every cell of column 0, so the lower-left branch after it is never
   * reached.
   */
  function ConnectedLeftAsWritten(g: Grid, rows: int, cols: int, row: int, col: int): (b: bool)
    requires Shaped(g, rows, cols) && InGrid(rows, cols, row, col)
    ensures col > 0 && Opens(g[row][col], Left) ==> (b <==> Opens(g[row][col - 1], Right))
    ensures col > 0 && !Opens(g[row][col], Left) ==> (b <==> g[row][col - 1] in [FC, FB, FD, BE, VC, VE, LV])
    ensures col == 0 ==> (b <==> !Opens(g[row][col], Left) && (row == 0 ==> !Opens(g[row][col], Up)))
  {
    var p := g[row][col];
    if col > 0 then
      var l := g[row][col - 1];
      if p in [FE, BC, BB, BE, VC, VE, LH] then l in [FD, BC, BB, BD, VD, VB, LH]
      else l in [FC, FB, FD, BE, VC, VE, LV]
    else if IsCornerUpperLeft(rows, cols, row, col) then p in [FB, FD, VB]
    else p in [FC, FB, FD, BD, VB, VD, LV]
  }

  /**
   * The grid [[FD, FC]]: FD at (0, 0) opens right toward FC, which has no
   * left connector, yet the check as written accepts FC; the corrected
   * check rejects it. [[FE, FC]] agrees on that side and is rejected.
   */
  lemma LeftCheckAcceptsMismatch()
    ensures !Agrees(FC, Left, FD)
    ensures ConnectedLeftAsWritten([[FD, FC]], 1, 2, 0, 1)
    ensures !ConnectedLeft([[FD, FC]], 1, 2, 0, 1)
    ensures Agrees(FC, Left, FE) && !ConnectedLeftAsWritten([[FE, FC]], 1, 2, 0, 1)
  {
  }

  /** is_connected_left with FE in the list where the draft has FD. */
  function ConnectedLeft(g: Grid, rows: int, cols: int, row: int, col: int): (b: bool)
    requires Shaped(g, rows, cols) && InGrid(rows, cols, row, col)
    ensures col > 0 ==> (b <==> Agrees(g[row][col], Left, g[row][col - 1]))
    ensures col == 0 ==> (b <==> !Opens(g[row][col], Left) && (row == 0 ==> !Opens(g[row][col], Up)))
  {
    var p := g[row][col];
    if col > 0 then
      var l := g[row][col - 1];
      if p in [FE, BC, BB, BE, VC, VE, LH] then l in [FD, BC, BB, BD, VD, VB, LH]
      else l in [FC, FB, FE, BE, VC, VE, LV]
    else if IsCornerUpperLeft(rows, cols, row, col) then p in [FB, FD, VB]
    else p in [FC, FB, FD, BD, VB, VD, LV]
  }

  /** is_connected_right; on the right edge only the upper corner adds a test. */
  function ConnectedRight(g: Grid, rows: int, cols: int, row: int, col: int): (b: bool)
    requires Shaped(g, rows, cols) && InGrid(rows, cols, row, col)
    ensures col < cols - 1 ==> (b <==> Agrees(g[row][col], Right, g[row][col + 1]))
    ensures col == cols - 1 ==> (b <==> !Opens(g[row][col], Right) && (row == 0 ==> !Opens(g[row][col], Up)))
  {
    var p := g[row][col];
    if col < cols - 1 then
      var r := g[row][col + 1];
      if p in [FD, BC, BB, BD, VD, VB, LH] then r in [FE, BC, BB, BE, VC, VE, LH]
      else r in [FC, FB, FD, BD, VB, VD, LV]
    else if IsCornerUpperRight(rows, cols, row, col) then p in [FE, FB, VE]
    else p in [FC, FE, FB, BE, VC, VE, LV]
  }

  /** is_connected_upper; on the top row the two corners are checked first. */
  function ConnectedUpper(g: Grid, rows: int, cols: int, row: int, col: int): (b: bool)
    requires Shaped(g, rows, cols) && InGrid(rows, cols, row, col)
    ensures row > 0 ==> (b <==> Agrees(g[row][col], Up, g[row - 1][col]))
    ensures row == 0 ==> (b <==> && !Opens(g[row][col], Up)
                                 && (col == 0 ==> !Opens(g[row][col], Left))
                                 && (col > 0 && col == cols - 1 ==> !Opens(g[row][col], Right)))
  {
    var p := g[row][col];
    if row > 0 then
      var u := g[row - 1][col];
      if p in [FC, BC, BE, BD, VC, VD, LV] then u in [FB, BB, BE, BD, VB, VE, LV]
      else u in [FC, FD, FE, BC, VC, VD, LH]
    else if IsCornerUpperLeft(rows, cols, row, col) then p in [FB, FD, VB]
    else if IsCornerUpperRight(rows, cols, row, col) then p in [FE, FB, VE]
    else p in [FD, FB, FE, BB, VB, VE, LH]
  }

  /** is_connected_lower; on the bottom row the two corners are checked first. */
  function ConnectedLower(g: Grid, rows: int, cols: int, row: int, col: int): (b: bool)
    requires Shaped(g, rows, cols) && InGrid(rows, cols, row, col)
    ensures row < rows - 1 ==> (b <==> Agrees(g[row][col], Down, g[row + 1][col]))
    ensures row == rows - 1 ==> (b <==> && !Opens(g[row][col], Down)
                                        && (col == cols - 1 ==> !Opens(g[row][col], Right))
                                        && (col == 0 && col != cols - 1 ==> !Opens(g[row][col], Left)))
  {
    var p := g[row][col];
    if row < rows - 1 then
      var d := g[row + 1][col];
      if p in [FB, BB, BE, BD, VB, VE, LV] then d in [FC, BC, BE, BD, VC, VD, LV]
      else d in [FB, FD, FE, BB, VB, VE, LH]
    else if IsCornerLowerRight(rows, cols, row, col) then p in [FC, FE, VC]
    else if IsCornerLowerLeft(rows, cols, row, col) then p in [FC, FD, VD]
    else p in [FC, FE, FD, BC, VC, VD, LH]
  }

  /**
   * Piece.isConnected: all four side checks pass, which is exactly the
   * reference: no connector leaves the grid and every side agrees.
   */
  function IsConnected(g: Grid, rows: int, cols: int, row: int, col: int): (b: bool)
    requires Shaped(g, rows, cols) && InGrid(rows, cols, row, col)
    ensures b <==> WellConnectedAt(g, rows, cols, row, col)
  {
    ConnectedLeft(g, rows, cols, row, col) && ConnectedRight(g, rows, cols, row, col) &&
    ConnectedUpper(g, rows, cols, row, col) && ConnectedLower(g, rows, cols, row, col)
  }

  /**
   * A mismatch that only the left check as written lets through: the cell
   * has no left connector and its left neighbour is FD or FE.
   */
  predicate LeftSlip(g: Grid, rows: int, cols: int, row: int, col: int)
    requires Shaped(g, rows, cols) && InGrid(rows, cols, row, col)
  {
    col > 0 && !Opens(g[row][col], Left) && g[row][col - 1] in [FD, FE]
  }

  /**
   * Piece.isConnected as the draft runs it, with is_connected_left as
   * written, stated against the reference: it agrees with it except at a
   * left slip, where FE, which agrees, is refused, and FD, which opens
   * toward the cell, is accepted whenever the other three sides agree.
   */
  predicate IsConnectedAsWritten(g: Grid, rows: int, cols: int, row: int, col: int)
    requires Shaped(g, rows, cols) && InGrid(rows, cols, row, col)
  {
    if LeftSlip(g, rows, cols, row, col) then
      var p := g[row][col];
      && g[row][col - 1] == FD
      && PointsInside(p, rows, cols, row, col)
      && (row > 0 ==> Agrees(p, Up, g[row - 1][col]))
      && (row < rows - 1 ==> Agrees(p, Down, g[row + 1][col]))
      && (col < cols - 1 ==> Agrees(p, Right, g[row][col + 1]))
    else
      WellConnectedAt(g, rows, cols, row, col)
  }

  /** The four side checks of isConnected, left as written, give IsConnectedAsWritten. */
  lemma IsConnectedAsWrittenMeaning(g: Grid, rows: int, cols: int, row: int, col: int)
    requires Shaped(g, rows, cols) && InGrid(rows, cols, row, col)
    ensures IsConnectedAsWritten(g, rows, cols, row, col) <==>
      && ConnectedLeftAsWritten(g, rows, cols, row, col) && ConnectedRight(g, rows, cols, row, col)
      && ConnectedUpper(g, rows, cols, row, col) && ConnectedLower(g, rows, cols, row, col)
  {
  }

  // ---------------------------------------------------------------------
  // Fixed cells and candidate tuples
  // ---------------------------------------------------------------------

  /** validate_pipe: the cell is appended unless it is already listed. */
  function Validated(vp: seq<Cell>, c: Cell): seq<Cell>
  {
    if c in vp then vp else vp + [c]
  }

  /**
   * validate_pipe only ever adds its cell, keeps what was listed in
   * place, is idempotent, and so never lets a cell be listed twice.
   */
  lemma ValidatedMeaning(vp: seq<Cell>, c: Cell)
    ensures forall x :: x in Validated(vp, c) <==> x in vp || x == c
    ensures |vp| <= |Validated(vp, c)| && Validated(vp, c)[..|vp|] == vp
    ensures Validated(Validated(vp, c), c) == Validated(vp, c)
    ensures Distinct(vp) ==> Distinct(Validated(vp, c))
  {
    if Distinct(vp) && c !in vp {
      var w := vp + [c];
      DistinctMeaning(vp);
      forall i, j | 0 <= i < j < |w| ensures w[i] != w[j] {
        if j == |vp| {
          assert w[i] == vp[i] && vp[i] in vp;
        } else {
          assert w[i] == vp[i] && w[j] == vp[j];
        }
      }
      DistinctMeaning(w);
    }
  }

  /** One action of this draft: code, row, col, and a weight the search reads. */
  datatype Rotation = Rotation(code: Code, row: int, col: int, weight: int)

  function RotationCodes(rs: seq<Rotation>): (r: seq<Code>)
    ensures |r| == |rs| && forall k :: 0 <= k < |rs| ==> r[k] == rs[k].code
  {
    seq(|rs|, k requires 0 <= k < |rs| => rs[k].code)
  }

  /** Each code as a tuple at (row, col) with the same weight w. */
  function Weighted(codes: seq<Code>, row: int, col: int, w: int): (r: seq<Rotation>)
    ensures |r| == |codes| && forall k :: 0 <= k < |r| ==> r[k] == Rotation(codes[k], row, col, w)
  {
    seq(|codes|, k requires 0 <= k < |codes| => Rotation(codes[k], row, col, w))
  }

  /**
   * The board as its neighbour lookups see it: a cell is fixed when it is
   * listed in valid_positions, and then shows its grid code.
   */
  function FixedView(g: Grid, vp: seq<Cell>, rows: int, cols: int): (e: Explored)
    requires Shaped(g, rows, cols) && cols >= 0
    ensures Shaped(e, rows, cols)
    ensures forall i, j :: InGrid(rows, cols, i, j) ==> e[i][j] == if (i, j) in vp then Some(g[i][j]) else None
  {
    seq(rows, i requires 0 <= i < rows =>
      seq(cols, j requires 0 <= j < cols => if (i, j) in vp then Some(g[i][j]) else None))
  }

  /**
   * get_valid_rotations of this draft: [] for a fixed cell, else the
   * boundary list filtered by the neighbour list (which applies no pattern
   * rule), each tuple weighted by the lengths of the lists it came from.
   */
  function DfsValidRotations(g: Grid, vp: seq<Cell>, rows: int, cols: int, row: int, col: int)
    : (r: Result<seq<Rotation>, Failure>)
    requires Shaped(g, rows, cols) && InGrid(rows, cols, row, col)
    ensures (row, col) in vp ==> r == Ok([])
    ensures r.Err? <==> (row, col) !in vp && Fails(g, FixedView(g, vp, rows, cols), rows, cols, row, col)
    ensures r.Ok? ==> forall k :: 0 <= k < |r.value| ==> r.value[k].row == row && r.value[k].col == col
    ensures r.Ok? && (row, col) !in vp ==>
      var neigh := NeighbourCandidates(NoPattern, g, FixedView(g, vp, rows, cols), rows, cols, row, col);
      forall k :: 0 <= k < |r.value| ==>
        r.value[k].weight == |neigh.value| +
          (if OnBorder(rows, cols, row, col) then |BoundaryActions(g[row][col], rows, cols, row, col).value| else 0)
  {
    if (row, col) in vp then Ok([])
    else
      var e := FixedView(g, vp, rows, cols);
      var pos := BoundaryActions(g[row][col], rows, cols, row, col);
      if pos.None? then Err(CornerTableNone)
      else
        var neigh := NeighbourCandidates(NoPattern, g, e, rows, cols, row, col);
        if neigh.Err? then Err(neigh.error)
        else
          var w := if |pos.value| != 0 then |neigh.value| + |pos.value| else |neigh.value|;
          Ok(Weighted(Combine(pos.value, neigh.value), row, col, w))
  }

  /**
   * The codes of the draft's tuples are those of the final solver's
   * get_valid_rotations with no pattern rule: distinct, and on a grid of at
   * least 2 x 2 exactly the orientations of the piece's family that point
   * inside the grid and agree with every fixed neighbour.
   */
  lemma DfsValidRotationsMeaning(g: Grid, vp: seq<Cell>, rows: int, cols: int, row: int, col: int)
    requires Shaped(g, rows, cols) && InGrid(rows, cols, row, col)
    ensures var r := DfsValidRotations(g, vp, rows, cols, row, col);
      var v := ValidRotations(NoPattern, g, FixedView(g, vp, rows, cols), rows, cols, row, col);
      && (r.Err? <==> v.Err?)
      && (r.Ok? ==> RotationCodes(r.value) == Codes(v.value))
      && (r.Ok? ==> Distinct(RotationCodes(r.value)))
      && (r.Ok? && (row, col) !in vp && rows >= 2 && cols >= 2 ==>
            forall x :: x in RotationCodes(r.value) <==>
              && FamilyOf(x) == FamilyOf(g[row][col])
              && PointsInside(x, rows, cols, row, col)
              && AgreesWithFixed(x, g[row][col], FixedView(g, vp, rows, cols), rows, cols, row, col))
  {
    var e := FixedView(g, vp, rows, cols);
    DfsMatchesCandidates(g, vp, rows, cols, row, col);
    ValidRotationsMeaning(NoPattern, g, e, rows, cols, row, col);
    forall x ensures Allowed(NoPattern, g[row][col], FlagsAt(g, rows, cols, row, col), x) { }
  }

  /** The draft fails exactly when the final solver does, with the same codes. */
  lemma DfsMatchesCandidates(g: Grid, vp: seq<Cell>, rows: int, cols: int, row: int, col: int)
    requires Shaped(g, rows, cols) && InGrid(rows, cols, row, col)
    ensures var r := DfsValidRotations(g, vp, rows, cols, row, col);
      var v := ValidRotations(NoPattern, g, FixedView(g, vp, rows, cols), rows, cols, row, col);
      && (r.Err? <==> v.Err?)
      && (r.Ok? ==> RotationCodes(r.value) == Codes(v.value))
  {
    var e := FixedView(g, vp, rows, cols);
    if (row, col) !in vp {
      assert e[row][col] == None;
      ValidRotationsCodes(NoPattern, g, e, rows, cols, row, col);
      var pos := BoundaryActions(g[row][col], rows, cols, row, col);
      var neigh := NeighbourCandidates(NoPattern, g, e, rows, cols, row, col);
      if pos.Some? && neigh.Ok? {
        var codes := Combine(pos.value, neigh.value);
        var w := if |pos.value| != 0 then |neigh.value| + |pos.value| else |neigh.value|;
        assert RotationCodes(Weighted(codes, row, col, w)) == codes;
      }
    }
  }

  /** How many tuples carry weight 1. */
  function CountUnique(actions: seq<Rotation>): nat
    decreases |actions|
  {
    if |actions| == 0 then 0
    else (if actions[0].weight == 1 then 1 else 0) + CountUnique(actions[1..])
  }

  /**
   * The count never exceeds the number of tuples; it is zero exactly when
   * no tuple has weight 1, and all of them exactly when every tuple has.
   */
  lemma {:induction false} CountUniqueMeaning(actions: seq<Rotation>)
    ensures CountUnique(actions) <= |actions|
    ensures CountUnique(actions) == 0 <==> forall k :: 0 <= k < |actions| ==> actions[k].weight != 1
    ensures CountUnique(actions) == |actions| <==> forall k :: 0 <= k < |actions| ==> actions[k].weight == 1
    decreases |actions|
  {
    if |actions| > 0 {
      var rest := actions[1..];
      CountUniqueMeaning(rest);
      assert forall k :: 0 <= k < |rest| ==> rest[k] == actions[k + 1];
      if forall k :: 0 <= k < |rest| ==> rest[k].weight != 1 {
        assert forall k :: 1 <= k < |actions| ==> actions[k] == rest[k - 1];
      }
      if forall k :: 0 <= k < |rest| ==> rest[k].weight == 1 {
        assert forall k :: 1 <= k < |actions| ==> actions[k] == rest[k - 1];
      }
    }
  }

  // ---------------------------------------------------------------------
  // The board
  // ---------------------------------------------------------------------

  /**
   * The goal goal_test evidently aims at, with the corrected left check:
   * every cell is listed as fixed, or every unlisted cell is well
   * connected.
   */
  function Goal(g: Grid, vp: seq<Cell>, rows: int, cols: int): (b: bool)
    requires Shaped(g, rows, cols)
    ensures (forall i, j :: InGrid(rows, cols, i, j) ==> (i, j) in vp) ==> b
    ensures |vp| != rows * cols ==>
      (b <==> forall i, j :: InGrid(rows, cols, i, j) && (i, j) !in vp ==> WellConnectedAt(g, rows, cols, i, j))
  {
    assert forall i, j :: InGrid(rows, cols, i, j) ==>
      (Settled(g, vp, rows, cols, i, j) <==> (i, j) in vp || WellConnectedAt(g, rows, cols, i, j));
    |vp| == rows * cols || forall i, j :: 0 <= i < rows && 0 <= j < cols ==> Settled(g, vp, rows, cols, i, j)
  }

  /** A cell goal_test lets pass: listed as fixed, or connected. */
  predicate Settled(g: Grid, vp: seq<Cell>, rows: int, cols: int, i: int, j: int)
    requires Shaped(g, rows, cols) && InGrid(rows, cols, i, j)
  {
    (i, j) in vp || WellConnectedAt(g, rows, cols, i, j)
  }

  /** A cell goal_test as written lets pass: listed as fixed, or passing isConnected as written. */
  predicate SettledAsWritten(g: Grid, vp: seq<Cell>, rows: int, cols: int, i: int, j: int)
    requires Shaped(g, rows, cols) && InGrid(rows, cols, i, j)
  {
    (i, j) in vp || IsConnectedAsWritten(g, rows, cols, i, j)
  }

  /** The first n cells of a row are settled as written, cell by cell. */
  predicate PrefixSettled(g: Grid, vp: seq<Cell>, rows: int, cols: int, row: int, n: int)
    requires Shaped(g, rows, cols) && 0 <= row < rows && 0 <= n <= cols
    decreases n
  {
    n == 0 || (PrefixSettled(g, vp, rows, cols, row, n - 1) && SettledAsWritten(g, vp, rows, cols, row, n - 1))
  }

  lemma {:induction false} PrefixSettledMeaning(g: Grid, vp: seq<Cell>, rows: int, cols: int, row: int, n: int)
    requires Shaped(g, rows, cols) && 0 <= row < rows && 0 <= n <= cols
    ensures PrefixSettled(g, vp, rows, cols, row, n) <==> forall j :: 0 <= j < n ==> SettledAsWritten(g, vp, rows, cols, row, j)
    decreases n
  {
    if n > 0 {
      PrefixSettledMeaning(g, vp, rows, cols, row, n - 1);
    }
  }

  /**
   * goal_test as the draft runs it: every cell is listed as fixed, or
   * every unlisted cell passes isConnected with the left check as written.
   */
  function GoalAsWritten(g: Grid, vp: seq<Cell>, rows: int, cols: int): (b: bool)
    requires Shaped(g, rows, cols)
    ensures (forall i, j :: InGrid(rows, cols, i, j) ==> (i, j) in vp) ==> b
    ensures |vp| != rows * cols ==>
      (b <==> forall i, j :: InGrid(rows, cols, i, j) && (i, j) !in vp ==> IsConnectedAsWritten(g, rows, cols, i, j))
  {
    assert forall i, j :: InGrid(rows, cols, i, j) ==>
      (SettledAsWritten(g, vp, rows, cols, i, j) <==> (i, j) in vp || IsConnectedAsWritten(g, rows, cols, i, j));
    |vp| == rows * cols || forall i, j :: 0 <= i < rows && 0 <= j < cols ==> SettledAsWritten(g, vp, rows, cols, i, j)
  }

  /**
   * The goal test as written and the corrected goal give the same answer
   * on every board where no unlisted cell has a left slip.
   */
  lemma GoalsAgree(g: Grid, vp: seq<Cell>, rows: int, cols: int)
    requires Shaped(g, rows, cols)
    requires forall i, j :: InGrid(rows, cols, i, j) && (i, j) !in vp ==> !LeftSlip(g, rows, cols, i, j)
    ensures GoalAsWritten(g, vp, rows, cols) == Goal(g, vp, rows, cols)
  {
    if |vp| != rows * cols {
      forall i, j | InGrid(rows, cols, i, j) && (i, j) !in vp
        ensures IsConnectedAsWritten(g, rows, cols, i, j) <==> WellConnectedAt(g, rows, cols, i, j)
      {
      }
    }
  }

  /**
   * On [[FD, FB], [FC, FC]] with (0, 1) the only unlisted cell, FD opens
   * right toward FB, which has no left connector: goal_test as written
   * accepts the board, the corrected goal does not.
   */
  lemma GoalsDiffer()
    ensures Shaped([[FD, FB], [FC, FC]], 2, 2)
    ensures !Agrees(FB, Left, FD)
    ensures GoalAsWritten([[FD, FB], [FC, FC]], [(0, 0), (1, 0), (1, 1)], 2, 2)
    ensures !Goal([[FD, FB], [FC, FC]], [(0, 0), (1, 0), (1, 1)], 2, 2)
  {
    var g := [[FD, FB], [FC, FC]];
    var vp := [(0, 0), (1, 0), (1, 1)];
    assert (0, 1) !in vp && !WellConnectedAt(g, 2, 2, 0, 1);
    assert IsConnectedAsWritten(g, 2, 2, 0, 1);
    forall i, j | InGrid(2, 2, i, j) && (i, j) !in vp ensures IsConnectedAsWritten(g, 2, 2, i, j) {
      assert (i, j) == (0, 1);
    }
  }

  class DfsBoard {
    var grid: Grid
    var validPositions: seq<Cell>
    var explored: seq<Cell>
    var heuristic: int

    /** A grid of at least one row, all as wide as the first. */
    predicate Valid()
      reads this
    {
      |grid| > 0 && Shaped(grid, |grid|, |grid[0]|)
    }

    /** Board(grid): nothing fixed, nothing explored, heuristic 0. */
    constructor (g: Grid)
      ensures grid == g && validPositions == [] && explored == [] && heuristic == 0
    {
      grid := g;
      validPositions := [];
      explored := [];
      heuristic := 0;
    }

    /** validate_pipe. */
    method ValidatePipe(row: int, col: int)
      modifies this`validPositions
      ensures validPositions == Validated(old(validPositions), (row, col))
    {
      if (row, col) !in validPositions {
        validPositions := validPositions + [(row, col)];
      }
    }

    /** unique_rotations: the tuples whose weight is 1, counted one by one. */
    method UniqueRotations(actions: seq<Rotation>) returns (unique: nat)
      ensures unique == CountUnique(actions)
    {
      unique := 0;
      var i := 0;
      while i < |actions|
        invariant 0 <= i <= |actions|
        invariant unique + CountUnique(actions[i..]) == CountUnique(actions)
      {
        assert actions[i..][1..] == actions[i + 1..];
        if actions[i].weight == 1 {
          unique := unique + 1;
        }
        i := i + 1;
      }
    }

    /**
     * goal_test: true at once when as many cells are listed as the grid
     * has; otherwise false at the first unlisted cell, in row-major order,
     * that fails isConnected as written.
     */
    method GoalTest() returns (b: bool)
      requires Valid()
      ensures b == GoalAsWritten(grid, validPositions, |grid|, |grid[0]|)
    {
      var rows, cols := |grid|, |grid[0]|;
      if |validPositions| == rows * cols {
        return true;
      }
      var row := 0;
      while row < rows
        invariant 0 <= row <= rows
        invariant forall i, j :: 0 <= i < row && 0 <= j < cols ==> SettledAsWritten(grid, validPositions, rows, cols, i, j)
      {
        var ok := RowSettled(row);
        if !ok {
          return false;
        }
        row := row + 1;
      }
      return true;
    }

    /**
     * Piece(piece).isConnected(board, row, col), with the left check as
     * written: the four side checks, all of which must pass.
     */
    method PieceConnected(row: int, col: int) returns (b: bool)
      requires Valid() && InGrid(|grid|, |grid[0]|, row, col)
      ensures b == IsConnectedAsWritten(grid, |grid|, |grid[0]|, row, col)
    {
      var rows, cols := |grid|, |grid[0]|;
      var left := ConnectedLeftAsWritten(grid, rows, cols, row, col);
      var right := ConnectedRight(grid, rows, cols, row, col);
      var upper := ConnectedUpper(grid, rows, cols, row, col);
      var lower := ConnectedLower(grid, rows, cols, row, col);
      b := left && right && upper && lower;
      IsConnectedAsWrittenMeaning(grid, rows, cols, row, col);
    }

    /** One cell of goal_test's inner loop: listed as fixed, or passing isConnected. */
    method CellSettled(row: int, col: int) returns (settled: bool)
      requires Valid() && InGrid(|grid|, |grid[0]|, row, col)
      ensures settled == SettledAsWritten(grid, validPositions, |grid|, |grid[0]|, row, col)
    {
      settled := (row, col) in validPositions;
      if !settled {
        settled := PieceConnected(row, col);
      }
    }

    /** The inner loop of goal_test: every cell of the row, left to right. */
    method RowSettled(row: int) returns (ok: bool)
      requires Valid() && 0 <= row < |grid|
      ensures ok <==> forall j :: 0 <= j < |grid[0]| ==> SettledAsWritten(grid, validPositions, |grid|, |grid[0]|, row, j)
    {
      var rows, cols := |grid|, |grid[0]|;
      var col := 0;
      while col < cols
        invariant 0 <= col <= cols
        invariant PrefixSettled(grid, validPositions, rows, cols, row, col)
      {
        var settled := CellSettled(row, col);
        if !settled {
          return false;
        }
        col := col + 1;
      }
      PrefixSettledMeaning(grid, validPositions, rows, cols, row, cols);
      return true;
    }

    /**
     * result: a new board whose grid is a copy with the action's code at
     * its cell, with the same fixed cells, the action's cell appended to
     * the explored list, and the action's weight as heuristic. The parent
     * board is not changed.
     */
    method Result(action: Rotation) returns (child: DfsBoard)
      requires Valid() && InGrid(|grid|, |grid[0]|, action.row, action.col)
      ensures fresh(child) && child.Valid()
      ensures child.grid == SetCell(grid, action.row, action.col, action.code)
      ensures child.validPositions == validPositions
      ensures child.explored == explored + [(action.row, action.col)]
      ensures child.heuristic == action.weight
    {
      child := new DfsBoard(grid);
      child.validPositions := validPositions;
      child.explored := explored;
      child.grid := SetCell(child.grid, action.row, action.col, action.code);
      child.heuristic := action.weight;
      child.explored := child.explored + [(action.row, action.col)];
      SetCellMeaning(grid, |grid|, |grid[0]|, action.row, action.col, action.code);
    }
  }
}
