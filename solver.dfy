/**
 * The final solver's Board (src/pipe.py): a square grid of codes and the
 * explored grid as two-dimensional arrays, the flags and counters the
 * search reads, and the problem's actions, result, goal_test, bfs and h
 * as methods that update a board in place.
 */
module Solver {
  import opened Wrappers
  import opened Pieces
  import opened Grids
  import opened Candidates
  import opened Scan
  import opened Traversal

  /**
   * Why goal_test cannot answer: `len(None)` on a board no action led to,
   * or a bfs source outside the grid (the (0, 0) of an empty board).
   */
  datatype GoalFailure = NoLastAction | SourceOffBoard

  /** The number action_count records: len of the tuple or of the list. */
  function ActionLength(a: Action): nat
  {
    match a
    case Single(_) => 3
    case Batch(ms) => |ms|
  }

  /**
   * The cell goal_test starts bfs from: (0, 0) after an empty list, the
   * last tuple's cell after a list, the tuple's own cell after a tuple.
   */
  function BfsSource(a: Action): Cell
  {
    match a
    case Single(m) => CellOf(m)
    case Batch(ms) => if |ms| == 0 then (0, 0) else CellOf(ms[|ms| - 1])
  }

  class Board {
    const grid: array2<Code>
    var explored: array2<Option<Code>>
    var invalid: bool
    /** unique_to_be_explored: the forced pass may still find something. */
    var unique: bool
    var actionCount: int
    /** numRows * numCols, as the constructor sets it. */
    const boardSize: int
    var exploredCount: int
    const numRows: nat
    const numCols: nat
    var lastAction: Option<Action>

    ghost predicate Valid()
      reads this
    {
      && grid.Length0 == numRows && grid.Length1 == numCols
      && explored.Length0 == numRows && explored.Length1 == numCols
    }

    /** The codes of the board, row by row. */
    function Codes(): Grid
      reads grid
    {
      Rows(grid)
    }

    /** The explored grid, row by row. */
    function Fixed(): Explored
      reads this`explored, explored
    {
      Rows(explored)
    }

    /** get_valid_rotations of this board, as a function of the explored grid. */
    function Rotations(): Oracle
      reads grid
    {
      CandidatesOf(AllFamilies, Codes(), numRows, numCols)
    }

    /** A new board: nothing explored, nothing invalid, no last action. */
    constructor (g: Grid)
      requires Shaped(g, |g|, |g|)
      ensures Valid() && fresh(grid) && fresh(explored)
      ensures Codes() == g && Fixed() == Filled(|g|, |g|, None)
      ensures numRows == |g| && numCols == |g| && boardSize == |g| * |g|
      ensures !invalid && unique && actionCount == 0 && exploredCount == 0 && lastAction == None
    {
      var n := |g|;
      var codes := FromRows(g, n, n);
      var blank := FromRows(Filled(n, n, None), n, n);
      grid, explored := codes, blank;
      numRows, numCols := n, n;
      boardSize := n * n;
      invalid, unique := false, true;
      actionCount, exploredCount := 0, 0;
      lastAction := None;
    }

    /**
     * A new board of the given dimensions (result's copy, and the
     * rectangular boards of the diagonal draft).
     */
    constructor Sized(g: Grid, rows: nat, cols: nat)
      requires Shaped(g, rows, cols)
      ensures Valid() && fresh(grid) && fresh(explored)
      ensures Codes() == g && Fixed() == Filled(rows, cols, None)
      ensures numRows == rows && numCols == cols && boardSize == rows * cols
      ensures !invalid && unique && actionCount == 0 && exploredCount == 0 && lastAction == None
    {
      var codes := FromRows(g, rows, cols);
      var blank := FromRows(Filled(rows, cols, None), rows, cols);
      grid, explored := codes, blank;
      numRows, numCols := rows, cols;
      boardSize := rows * cols;
      invalid, unique := false, true;
      actionCount, exploredCount := 0, 0;
      lastAction := None;
    }

    /** explored_grid[row][col]: the fixed code of a cell, if any. */
    method FixedAt(row: nat, col: nat) returns (v: Option<Code>)
      requires Valid() && row < numRows && col < numCols
      ensures v == Fixed()[row][col]
    {
      RowsMeaning(explored);
      v := explored[row, col];
    }

    /**
     * explored_grid[row][col] = code: one cell becomes fixed. When the
     * explored grid is cur with the moves acc committed, it is afterwards
     * cur with acc + [m] committed.
     */
    method Fix(m: Move, ghost cur: Explored, ghost acc: seq<Move>)
      requires Valid() && 0 <= m.row < numRows && 0 <= m.col < numCols
      requires Shaped(cur, numRows, numCols) && MovesFit(acc, cur) && Fixed() == Commit(cur, acc)
      modifies explored
      ensures Fixed() == SetCell(old(Fixed()), m.row, m.col, Some(m.code))
      ensures MovesFit(acc + [m], cur) && Fixed() == Commit(cur, acc + [m])
    {
      ghost var e := Fixed();
      RowsMeaning(explored);
      explored[m.row, m.col] := Some(m.code);
      RowsMeaning(explored);
      SameGrid(Fixed(), SetCell(e, m.row, m.col, Some(m.code)), numRows, numCols);
      MovesFitSnoc(acc, m, cur);
      CommitSnoc(cur, acc, m);
    }

    /**
     * One row of the forced pass of actions: each cell of the row with
     * exactly one candidate is fixed at once, so the cells after it see it.
     * With the moves acc before it, the row leaves the moves r.value before
     * the rest of the pass from the next row, or ends it with Propagate's
     * failure.
     */
    method ForcedRow(row: nat, ghost cur: Explored, acc: seq<Move>, cands: Oracle) returns (r: Result<seq<Move>, Failure>)
      requires Valid() && row < numRows
      requires Shaped(cur, numRows, numCols) && MovesFit(acc, cur) && Fixed() == Commit(cur, acc)
      modifies explored
      ensures r.Err? ==> Prefixed(acc, Propagate(cands, Commit(cur, acc), numRows, numCols, row, 0)) == r
      ensures r.Ok? ==> MovesFit(r.value, cur) && Fixed() == Commit(cur, r.value)
      ensures r.Ok? ==>
        Prefixed(acc, Propagate(cands, Commit(cur, acc), numRows, numCols, row, 0))
        == Prefixed(r.value, Propagate(cands, Commit(cur, r.value), numRows, numCols, row + 1, 0))
    {
      var ms := acc;
      var col := 0;
      while col < numCols
        invariant 0 <= col <= numCols
        invariant MovesFit(ms, cur) && Fixed() == Commit(cur, ms)
        invariant Prefixed(acc, Propagate(cands, Commit(cur, acc), numRows, numCols, row, 0))
          == Prefixed(ms, Propagate(cands, Commit(cur, ms), numRows, numCols, row, col))
      {
        var vr := cands(Fixed(), row, col);
        PropagateStep(cands, Fixed(), numRows, numCols, row, col, ms);
        if vr.Err? {
          return Err(vr.error);
        }
        if |vr.value| == 1 {
          var m := Move(vr.value[0].code, row, col);
          Fix(m, cur, ms);
          ms := ms + [m];
        }
        col := col + 1;
      }
      RowOver(cands, Fixed(), numRows, numCols, row);
      return Ok(ms);
    }

    /**
     * The row-major pass of actions, row by row. The moves and the new
     * explored grid are those of Propagate.
     */
    method ForcedPass(cands: Oracle) returns (r: Result<seq<Move>, Failure>)
      requires Valid()
      modifies explored
      ensures r.Err? <==> Propagate(cands, old(Fixed()), numRows, numCols, 0, 0).Err?
      ensures r.Ok? ==> r == Propagate(cands, old(Fixed()), numRows, numCols, 0, 0)
      ensures r.Ok? ==> Fixed() == Commit(old(Fixed()), r.value)
    {
      ghost var e0 := Fixed();
      var acc: seq<Move> := [];
      PrefixedNothing(Propagate(cands, e0, numRows, numCols, 0, 0));
      var row := 0;
      while row < numRows
        invariant 0 <= row <= numRows
        invariant MovesFit(acc, e0) && Fixed() == Commit(e0, acc)
        invariant Propagate(cands, e0, numRows, numCols, 0, 0)
          == Prefixed(acc, Propagate(cands, Commit(e0, acc), numRows, numCols, row, 0))
      {
        var ms := ForcedRow(row, e0, acc, cands);
        if ms.Err? {
          return ms;
        }
        acc := ms.value;
        row := row + 1;
      }
      PassOver(cands, Commit(e0, acc), numRows, numCols, acc);
      return Ok(acc);
    }

    /**
     * One cell (row, s - row) of the diagonal pass: an explored cell is
     * skipped, a cell with one candidate is fixed, and a cell with several
     * candidates or none ends the pass (stop). With the moves acc before it,
     * the pass's outcome is w when it stops here, and otherwise the rest of
     * the pass from the next cell behind the moves w.prefix.
     */
    method WaveCell(s: nat, row: nat, ghost cur: Explored, acc: seq<Move>, cands: Oracle)
      returns (stop: bool, w: Wave)
      requires Valid() && s < numRows + numCols - 1 && WaveStart(numCols, s) <= row < WaveEnd(numRows, s)
      requires Shaped(cur, numRows, numCols) && MovesFit(acc, cur) && Fixed() == Commit(cur, acc)
      modifies explored
      ensures !w.Failed? ==> MovesFit(w.prefix, cur) && Fixed() == Commit(cur, w.prefix)
      ensures stop <==> !w.Done?
      ensures stop ==> WaveRest(cands, cur, acc, numRows, numCols, s, row) == w
      ensures !stop ==>
        WaveRest(cands, cur, acc, numRows, numCols, s, row) == WaveRest(cands, cur, w.prefix, numRows, numCols, s, row + 1)
    {
      var col := s - row;
      var v := FixedAt(row, col);
      if v.Some? {
        WaveSkip(cands, cur, acc, numRows, numCols, s, row);
        return false, Done(acc);
      }
      var vr := cands(Fixed(), row, col);
      if vr.Err? || |vr.value| != 1 {
        WaveStop(cands, cur, acc, numRows, numCols, s, row);
        if vr.Err? {
          return true, Failed(vr.error);
        }
        if |vr.value| > 1 {
          return true, Branch(acc, vr.value);
        }
        return true, Stuck(acc, (row, col));
      }
      WaveFix(cands, cur, acc, numRows, numCols, s, row);
      var m := Move(vr.value[0].code, row, col);
      Fix(m, cur, acc);
      return false, Done(acc + [m]);
    }

    /**
     * One diagonal of the diagonal pass of actions, cell by cell, as
     * WaveCell does each. With the moves acc before it, the pass's outcome
     * is w when it stops on this diagonal, and otherwise the rest of the
     * pass from the next diagonal behind the moves w.prefix.
     */
    method Diagonal(s: nat, ghost cur: Explored, acc: seq<Move>, cands: Oracle) returns (stop: bool, w: Wave)
      requires Valid() && s < numRows + numCols - 1
      requires Shaped(cur, numRows, numCols) && MovesFit(acc, cur) && Fixed() == Commit(cur, acc)
      modifies explored
      ensures !w.Failed? ==> MovesFit(w.prefix, cur) && Fixed() == Commit(cur, w.prefix)
      ensures stop <==> !w.Done?
      ensures stop ==> WaveRest(cands, cur, acc, numRows, numCols, s, WaveStart(numCols, s)) == w
      ensures !stop ==>
        WaveRest(cands, cur, acc, numRows, numCols, s, WaveStart(numCols, s))
        == WaveRest(cands, cur, w.prefix, numRows, numCols, s + 1, WaveStart(numCols, s + 1))
    {
      ghost var target := WaveRest(cands, cur, acc, numRows, numCols, s, WaveStart(numCols, s));
      var ms := acc;
      var row := Max(0, s - numCols + 1);
      while row < Min(s + 1, numRows)
        invariant WaveStart(numCols, s) <= row <= WaveEnd(numRows, s)
        invariant MovesFit(ms, cur) && Fixed() == Commit(cur, ms)
        invariant target == WaveRest(cands, cur, ms, numRows, numCols, s, row)
      {
        var d: Wave;
        stop, d := WaveCell(s, row, cur, ms, cands);
        if stop {
          return true, d;
        }
        ms := d.prefix;
        row := row + 1;
      }
      WaveNext(cands, cur, ms, numRows, numCols, s, row);
      return false, Done(ms);
    }

    /**
     * The diagonal loops of actions: diagonal after diagonal until one of
     * them ends the pass. The outcome is Wavefront's from the first cell,
     * and the forced moves it carries have been committed.
     */
    method WavePass(cands: Oracle) returns (w: Wave)
      requires Valid()
      modifies explored
      ensures w == Wavefront(cands, old(Fixed()), numRows, numCols, 0, WaveStart(numCols, 0))
      ensures !w.Failed? ==> Fixed() == Commit(old(Fixed()), w.prefix)
    {
      ghost var e0 := Fixed();
      var acc: seq<Move> := [];
      WaveBegin(cands, e0, numRows, numCols);
      var s := 0;
      while s < numRows + numCols - 1
        invariant MovesFit(acc, e0) && Fixed() == Commit(e0, acc)
        invariant Wavefront(cands, e0, numRows, numCols, 0, WaveStart(numCols, 0))
          == WaveRest(cands, e0, acc, numRows, numCols, s, WaveStart(numCols, s))
      {
        var stop, d := Diagonal(s, e0, acc, cands);
        if stop {
          return d;
        }
        acc := d.prefix;
        s := s + 1;
      }
      WaveOver(cands, e0, acc, numRows, numCols, s);
      return Done(acc);
    }

    /**
     * The diagonal pass of actions: several candidates give one action per
     * candidate (the fixed moves plus that candidate), no candidate gives
     * the fixed moves one by one (or an invalid board when there are none),
     * and a completed pass gives one action holding every fixed move.
     */
    method DiagonalPass(cands: Oracle) returns (r: Result<seq<Action>, Failure>)
      requires Valid() && !invalid
      modifies this, explored
      ensures Valid() && explored == old(explored) && unique == old(unique)
      ensures actionCount == old(actionCount) && exploredCount == old(exploredCount) && lastAction == old(lastAction)
      ensures WaveStep(cands, old(Fixed()), numRows, numCols).Err? <==> r.Err?
      ensures r.Ok? ==> r.value == WaveStep(cands, old(Fixed()), numRows, numCols).value.actions
      ensures r.Ok? ==> Fixed() == WaveStep(cands, old(Fixed()), numRows, numCols).value.explored
      ensures r.Ok? ==> invalid == WaveStep(cands, old(Fixed()), numRows, numCols).value.invalid
    {
      var w := WavePass(cands);
      match w
      case Failed(f) =>
        r := Err(f);
      case Branch(p, ch) =>
        var actions := Fork(p, ch);
        r := Ok(actions);
      case Stuck(p, _) =>
        if |p| == 0 {
          invalid := true;
          r := Ok([]);
        } else {
          r := Ok(Singles(p));
        }
      case Done(p) =>
        r := Ok([Batch(p)]);
    }

    /**
     * PipeMania.actions: nothing on an invalid board; the forced cells as
     * one action while the forced pass is still on and finds any; else the
     * diagonal pass. The actions, the explored grid and both flags are
     * those of Scan.Actions.
     */
    method Actions() returns (r: Result<seq<Action>, Failure>)
      requires Valid()
      modifies this, explored
      ensures Valid() && explored == old(explored)
      ensures actionCount == old(actionCount) && exploredCount == old(exploredCount) && lastAction == old(lastAction)
      ensures Scan.Actions(Rotations(), old(Fixed()), numRows, numCols, old(unique), old(invalid)).Err? <==> r.Err?
      ensures r.Ok? ==>
        var st := Scan.Actions(Rotations(), old(Fixed()), numRows, numCols, old(unique), old(invalid)).value;
        r.value == st.actions && Fixed() == st.explored && unique == st.unique && invalid == st.invalid
    {
      ghost var spec := Scan.Actions(Rotations(), Fixed(), numRows, numCols, unique, invalid);
      if invalid {
        return Ok([]);
      }
      var cands := Rotations();
      ghost var e0 := Fixed();
      if unique {
        var forced := ForcedPass(cands);
        if forced.Err? {
          return Err(forced.error);
        }
        if |forced.value| > 0 {
          assert spec == Ok(Step([Batch(forced.value)], Commit(e0, forced.value), true, false));
          return Ok([Batch(forced.value)]);
        }
      }
      assert spec == WaveStep(cands, e0, numRows, numCols);
      unique := false;
      r := DiagonalPass(cands);
    }

    /** One move of result: the code goes into the grid and the explored grid. */
    method Mark(m: Move)
      requires Valid() && InGrid(numRows, numCols, m.row, m.col)
      modifies grid, explored, this`exploredCount
      ensures Codes() == SetCell(old(Codes()), m.row, m.col, m.code)
      ensures Fixed() == SetCell(old(Fixed()), m.row, m.col, Some(m.code))
      ensures exploredCount == old(exploredCount) + 1
    {
      ghost var g, e := Codes(), Fixed();
      RowsMeaning(grid);
      RowsMeaning(explored);
      grid[m.row, m.col] := m.code;
      explored[m.row, m.col] := Some(m.code);
      RowsMeaning(grid);
      RowsMeaning(explored);
      SameGrid(Codes(), SetCell(g, m.row, m.col, m.code), numRows, numCols);
      SameGrid(Fixed(), SetCell(e, m.row, m.col, Some(m.code)), numRows, numCols);
      exploredCount := exploredCount + 1;
    }

    /** The loop of result: each move in turn, as Mark does it. */
    method Apply(ms: seq<Move>)
      requires Valid() && MovesInGrid(ms, numRows, numCols)
      modifies grid, explored, this`exploredCount
      ensures MovesFit(ms, old(Codes())) && MovesFit(ms, old(Fixed()))
      ensures Codes() == Place(old(Codes()), ms)
      ensures Fixed() == Commit(old(Fixed()), ms)
      ensures exploredCount == old(exploredCount) + |ms|
    {
      ghost var g0, e0 := Codes(), Fixed();
      for k := 0 to |ms|
        invariant MovesFit(ms[..k], g0) && MovesFit(ms[..k], e0)
        invariant Codes() == Place(g0, ms[..k]) && Fixed() == Commit(e0, ms[..k])
        invariant exploredCount == old(exploredCount) + k
      {
        var m := ms[k];
        assert ms[..k + 1] == ms[..k] + [m];
        Mark(m);
        PlaceSnoc(g0, ms[..k], m);
        CommitSnoc(e0, ms[..k], m);
      }
      assert ms[..|ms|] == ms;
    }

    /** The fields result copies from the parent, or sets, in the new board. */
    method Inherit(e: Explored, u: bool, count: int, explored0: int, last: Action)
      requires Valid() && Shaped(e, numRows, numCols)
      modifies this`explored, this`unique, this`actionCount, this`exploredCount, this`lastAction
      ensures Valid() && fresh(explored) && Fixed() == e
      ensures unique == u && actionCount == count && exploredCount == explored0 && lastAction == Some(last)
    {
      explored := FromRows(e, numRows, numCols);
      unique := u;
      actionCount := count;
      exploredCount := explored0;
      lastAction := Some(last);
    }

    /**
     * PipeMania.result: marks this board invalid and returns a new board
     * whose grid and explored grid hold the action's moves, whose explored
     * count grew by one per move, and which remembers the action.
     */
    method Result(action: Action) returns (child: Board)
      requires Valid() && MovesInGrid(MovesOf(action), numRows, numCols)
      modifies this`invalid
      ensures invalid && explored == old(explored) && unique == old(unique)
      ensures actionCount == old(actionCount) && exploredCount == old(exploredCount) && lastAction == old(lastAction)
      ensures fresh(child) && fresh(child.grid) && fresh(child.explored) && child.Valid()
      ensures child.numRows == numRows && child.numCols == numCols && child.boardSize == numRows * numCols
      ensures MovesFit(MovesOf(action), old(Codes())) && MovesFit(MovesOf(action), old(Fixed()))
      ensures child.Codes() == Place(old(Codes()), MovesOf(action))
      ensures child.Fixed() == Commit(old(Fixed()), MovesOf(action))
      ensures !child.invalid && child.unique == unique
      ensures child.actionCount == ActionLength(action)
      ensures child.exploredCount == exploredCount + |MovesOf(action)|
      ensures child.lastAction == Some(action)
    {
      var g0, e0 := Codes(), Fixed();
      child := new Board.Sized(g0, numRows, numCols);
      child.Inherit(e0, unique, ActionLength(action), exploredCount, action);
      assert child.Codes() == g0 && child.Fixed() == e0 && child.Valid();
      child.Apply(MovesOf(action));
      invalid := true;
    }

    /** The final loops of bfs: is every explored cell visited? */
    method Covered(visited: array2<bool>) returns (b: bool)
      requires Valid() && visited.Length0 == numRows && visited.Length1 == numCols
      ensures b <==> forall i, j :: 0 <= i < numRows && 0 <= j < numCols && Fixed()[i][j].Some? ==> visited[i, j]
    {
      RowsMeaning(explored);
      for r := 0 to numRows
        invariant forall i, j :: 0 <= i < r && 0 <= j < numCols && explored[i, j].Some? ==> visited[i, j]
      {
        for c := 0 to numCols
          invariant forall i, j :: 0 <= i < r && 0 <= j < numCols && explored[i, j].Some? ==> visited[i, j]
          invariant forall j :: 0 <= j < c && explored[r, j].Some? ==> visited[r, j]
        {
          if explored[r, c].Some? && !visited[r, c] {
            return false;
          }
        }
      }
      return true;
    }

    /**
     * PipeMania.bfs: the breadth-first search from source over the links
     * of get_reachable_explored, which reports a cycle when a link other
     * than the one back to the predecessor reaches a visited cell, then
     * checks that every explored cell was visited. It marks the board
     * invalid whatever it answers, and answers Traversal.Bfs.
     */
    method Bfs(source: Cell) returns (ok: bool)
      requires Valid() && InGrid(numRows, numCols, source.0, source.1)
      modifies this
      ensures invalid && explored == old(explored) && unique == old(unique)
      ensures actionCount == old(actionCount) && exploredCount == old(exploredCount) && lastAction == old(lastAction)
      ensures ok == Traversal.Bfs(Codes(), Fixed(), numRows, numCols, source)
    {
      ghost var g, e := Codes(), Fixed();
      ghost var adj := ExploredLinks(g, e, numRows, numCols);
      ExploredLinksStayInGrid(g, e, numRows, numCols);
      var visited := new bool[numRows, numCols]((i, j) => false);
      var found := Search(Codes(), Fixed(), numRows, numCols, visited, source, adj);
      ghost var r := BfsLoop(adj, numRows, numCols, {}, [(source, None)]);
      assert Fixed() == e;
      if found {
        ok := Covered(visited);
        assert ok <==> forall i, j :: 0 <= i < numRows && 0 <= j < numCols && e[i][j].Some? ==> visited[i, j];
        assert ok <==> forall i, j :: 0 <= i < numRows && 0 <= j < numCols && e[i][j].Some? ==> (i, j) in r.value;
      } else {
        ok := false;
      }
      invalid := true;
      assert Codes() == g && Fixed() == e;
      BfsAnswer(g, e, numRows, numCols, source);
    }

    /**
     * PipeMania.goal_test: False until every cell is explored; then bfs
     * from the cell the last action named.
     */
    method GoalTest() returns (r: Result<bool, GoalFailure>)
      requires Valid()
      modifies this
      ensures explored == old(explored) && unique == old(unique)
      ensures actionCount == old(actionCount) && exploredCount == old(exploredCount) && lastAction == old(lastAction)
      ensures exploredCount != boardSize ==> r == Ok(false) && invalid == old(invalid)
      ensures exploredCount == boardSize && lastAction.None? ==> r == Err(NoLastAction)
      ensures exploredCount == boardSize && lastAction.Some? ==>
        var c := BfsSource(lastAction.value);
        if InGrid(numRows, numCols, c.0, c.1)
        then r == Ok(Traversal.Bfs(Codes(), Fixed(), numRows, numCols, c)) && invalid
        else r == Err(SourceOffBoard)
    {
      if exploredCount != boardSize {
        return Ok(false);
      }
      if lastAction.None? {
        return Err(NoLastAction);
      }
      var c := BfsSource(lastAction.value);
      if !InGrid(numRows, numCols, c.0, c.1) {
        return Err(SourceOffBoard);
      }
      var ok := Bfs(c);
      return Ok(ok);
    }

    /** PipeMania.h: board_size + 1 on an invalid board, else the cells left. */
    function H(): (h: int)
      reads this
      ensures invalid ==> h == boardSize + 1
      ensures !invalid ==> h + exploredCount == boardSize
    {
      if invalid then boardSize + 1 else boardSize - exploredCount
    }
  }

  /** The moves before the rest of a result. */
  function Prefixed(acc: seq<Move>, r: Result<seq<Move>, Failure>): Result<seq<Move>, Failure>
  {
    match r
    case Ok(ms) => Ok(acc + ms)
    case Err(f) => r
  }

  /** The moves before the prefix of a wave outcome. */
  function Ahead(acc: seq<Move>, w: Wave): Wave
  {
    match w
    case Done(p) => Done(acc + p)
    case Branch(p, ch) => Branch(acc + p, ch)
    case Stuck(p, c) => Stuck(acc + p, c)
    case Failed(f) => w
  }

  lemma PrefixedNothing(r: Result<seq<Move>, Failure>)
    ensures Prefixed([], r) == r
  {
    if r.Ok? {
      assert [] + r.value == r.value;
    }
  }

  lemma PrefixedConcat(a: seq<Move>, b: seq<Move>, r: Result<seq<Move>, Failure>)
    ensures Prefixed(a, Prefixed(b, r)) == Prefixed(a + b, r)
  {
    if r.Ok? {
      assert a + (b + r.value) == (a + b) + r.value;
    }
  }

  lemma AheadNothing(w: Wave)
    ensures Ahead([], w) == w
  {
    if !w.Failed? {
      assert [] + w.prefix == w.prefix;
    }
  }

  lemma AheadPreceded(a: seq<Move>, m: Move, w: Wave)
    ensures Ahead(a, Preceded(m, w)) == Ahead(a + [m], w)
  {
    if !w.Failed? {
      assert a + ([m] + w.prefix) == (a + [m]) + w.prefix;
    }
  }

  /**
   * The while loop of bfs: visited is true exactly on the cells the
   * search reaches, unless a link other than the one back to the
   * predecessor leads to a visited cell (found is then false).
   */
  method Search(g: Grid, e: Explored, numRows: nat, numCols: nat, visited: array2<bool>, source: Cell, ghost adj: Adjacency)
    returns (found: bool)
    requires Shaped(g, numRows, numCols) && Shaped(e, numRows, numCols) && InGrid(numRows, numCols, source.0, source.1)
    requires visited.Length0 == numRows && visited.Length1 == numCols
    requires forall i, j :: 0 <= i < numRows && 0 <= j < numCols ==> !visited[i, j]
    requires adj == ExploredLinks(g, e, numRows, numCols) && StaysInGrid(adj, numRows, numCols)
    modifies visited
    ensures found <==> BfsLoop(adj, numRows, numCols, {}, [(source, None)]).Some?
    ensures found ==> forall i, j :: 0 <= i < numRows && 0 <= j < numCols ==>
      (visited[i, j] <==> (i, j) in BfsLoop(adj, numRows, numCols, {}, [(source, None)]).value)
  {
    ghost var vs: set<Cell> := {};
    var queue: seq<Entry> := [(source, None)];
    while |queue| > 0
      invariant vs <= AllCells(numRows, numCols) && CellsInGrid(Heads(queue), numRows, numCols)
      invariant forall i, j :: 0 <= i < numRows && 0 <= j < numCols ==> (visited[i, j] <==> (i, j) in vs)
      invariant BfsLoop(adj, numRows, numCols, {}, [(source, None)]) == BfsLoop(adj, numRows, numCols, vs, queue)
      decreases AllCells(numRows, numCols) - vs, |queue|
    {
      var cur := queue[0].0;
      assert Heads(queue)[0] == cur;
      if visited[cur.0, cur.1] {
        BfsSkip(adj, numRows, numCols, vs, queue);
        queue := queue[1..];
        continue;
      }
      var next := Visit(g, e, numRows, numCols, visited, adj, vs, queue);
      vs := vs + {cur};
      if next.None? {
        return false;
      }
      queue := next.value;
    }
    return true;
  }

  /**
   * The turn of the loop of bfs on a cell not yet visited: it is marked
   * and its reachable cells are queued, or the search stops on a cycle.
   */
  method Visit(g: Grid, e: Explored, numRows: nat, numCols: nat, visited: array2<bool>, ghost adj: Adjacency,
               ghost vs: set<Cell>, queue: seq<Entry>)
    returns (next: Option<seq<Entry>>)
    requires Shaped(g, numRows, numCols) && Shaped(e, numRows, numCols)
    requires visited.Length0 == numRows && visited.Length1 == numCols
    requires adj == ExploredLinks(g, e, numRows, numCols) && StaysInGrid(adj, numRows, numCols)
    requires vs <= AllCells(numRows, numCols) && CellsInGrid(Heads(queue), numRows, numCols)
    requires forall i, j :: 0 <= i < numRows && 0 <= j < numCols ==> (visited[i, j] <==> (i, j) in vs)
    requires |queue| > 0 && queue[0].0 !in vs
    modifies visited
    ensures queue[0].0 in AllCells(numRows, numCols)
    ensures forall i, j :: 0 <= i < numRows && 0 <= j < numCols ==> (visited[i, j] <==> (i, j) in vs + {queue[0].0})
    ensures next.None? ==> BfsLoop(adj, numRows, numCols, vs, queue) == None
    ensures next.Some? ==> CellsInGrid(Heads(next.value), numRows, numCols)
    ensures next.Some? ==>
      BfsLoop(adj, numRows, numCols, vs, queue) == BfsLoop(adj, numRows, numCols, vs + {queue[0].0}, next.value)
  {
    var cur := queue[0].0;
    BfsVisit(adj, numRows, numCols, vs, queue);
    visited[cur.0, cur.1] := true;
    var reachable := ReachableExplored(g, e, numRows, numCols, cur.0, cur.1);
    next := Expand(reachable, cur, queue[0].1, visited, vs + {cur}, numRows, numCols, queue[1..]);
  }

  /**
   * The for loop of bfs over the reachable cells: each one other than the
   * predecessor is queued behind the current cell, and a visited one stops
   * the search.
   */
  method Expand(next: seq<Cell>, cur: Cell, prev: Option<Cell>, visited: array2<bool>, ghost vs: set<Cell>,
                rows: nat, cols: nat, queue: seq<Entry>) returns (r: Option<seq<Entry>>)
    requires visited.Length0 == rows && visited.Length1 == cols && CellsInGrid(next, rows, cols)
    requires forall i, j :: 0 <= i < rows && 0 <= j < cols ==> (visited[i, j] <==> (i, j) in vs)
    requires CellsInGrid(Heads(queue), rows, cols)
    ensures r == Enqueue(next, cur, prev, vs, queue)
    ensures r.Some? ==> CellsInGrid(Heads(r.value), rows, cols)
  {
    var q := queue;
    for k := 0 to |next|
      invariant Enqueue(next, cur, prev, vs, queue) == Enqueue(next[k..], cur, prev, vs, q)
      invariant CellsInGrid(Heads(q), rows, cols)
    {
      var n := next[k];
      assert next[k..][1..] == next[k + 1..];
      if Some(n) != prev {
        if visited[n.0, n.1] {
          return None;
        }
        assert Heads(q + [(n, Some(cur))]) == Heads(q) + [n];
        q := q + [(n, Some(cur))];
      }
    }
    assert next[|next|..] == [];
    return Some(q);
  }

  /** One turn of the loop of bfs on a visited cell: it is dropped. */
  lemma BfsSkip(adj: Adjacency, rows: int, cols: int, vs: set<Cell>, q: seq<Entry>)
    requires StaysInGrid(adj, rows, cols) && vs <= AllCells(rows, cols) && CellsInGrid(Heads(q), rows, cols)
    requires |q| > 0 && q[0].0 in vs
    ensures CellsInGrid(Heads(q[1..]), rows, cols)
    ensures BfsLoop(adj, rows, cols, vs, q) == BfsLoop(adj, rows, cols, vs, q[1..])
  {
    assert forall k :: 0 <= k < |q[1..]| ==> Heads(q[1..])[k] == Heads(q)[k + 1];
  }

  /** One turn of the loop of bfs on a new cell: it is visited and its links queued. */
  lemma BfsVisit(adj: Adjacency, rows: int, cols: int, vs: set<Cell>, q: seq<Entry>)
    requires StaysInGrid(adj, rows, cols) && vs <= AllCells(rows, cols) && CellsInGrid(Heads(q), rows, cols)
    requires |q| > 0 && q[0].0 !in vs
    ensures q[0].0 in AllCells(rows, cols) && vs + {q[0].0} <= AllCells(rows, cols)
    ensures CellsInGrid(Heads(q[1..]), rows, cols) && CellsInGrid(adj(q[0].0), rows, cols)
    ensures var r := Enqueue(adj(q[0].0), q[0].0, q[0].1, vs + {q[0].0}, q[1..]);
      && (r.None? ==> BfsLoop(adj, rows, cols, vs, q) == None)
      && (r.Some? ==> CellsInGrid(Heads(r.value), rows, cols))
      && (r.Some? ==> BfsLoop(adj, rows, cols, vs, q) == BfsLoop(adj, rows, cols, vs + {q[0].0}, r.value))
  {
    assert Heads(q)[0] == q[0].0;
    assert forall k :: 0 <= k < |q[1..]| ==> Heads(q[1..])[k] == Heads(q)[k + 1];
    EnqueueMeaning(adj(q[0].0), q[0].0, q[0].1, vs + {q[0].0}, q[1..]);
  }

  /** The loop of actions that extends the fixed moves by each candidate. */
  method Fork(prefix: seq<Move>, choices: seq<Move>) returns (actions: seq<Action>)
    ensures actions == BranchActions(prefix, choices)
  {
    actions := [];
    for k := 0 to |choices|
      invariant |actions| == k && forall i :: 0 <= i < k ==> actions[i] == Batch(prefix + [choices[i]])
    {
      actions := actions + [Batch(prefix + [choices[k]])];
    }
  }

  /** One step of Propagate at an in-grid cell. */
  lemma PropagateAt(cands: Oracle, e: Explored, rows: nat, cols: nat, row: nat, col: nat)
    requires Shaped(e, rows, cols) && row < rows && col < cols
    ensures cands(e, row, col).Err? ==> Propagate(cands, e, rows, cols, row, col) == Err(cands(e, row, col).error)
    ensures cands(e, row, col).Ok? && |cands(e, row, col).value| != 1 ==>
      Propagate(cands, e, rows, cols, row, col) == Propagate(cands, e, rows, cols, row, col + 1)
    ensures cands(e, row, col).Ok? && |cands(e, row, col).value| == 1 ==>
      var x := cands(e, row, col).value[0].code;
      Propagate(cands, e, rows, cols, row, col)
        == Prefixed([Move(x, row, col)], Propagate(cands, SetCell(e, row, col, Some(x)), rows, cols, row, col + 1))
  {
  }

  /**
   * One step of Propagate at an in-grid cell, after the moves acc: an
   * error ends it, a cell with one candidate adds its move to acc.
   */
  lemma PropagateStep(cands: Oracle, e: Explored, rows: nat, cols: nat, row: nat, col: nat, acc: seq<Move>)
    requires Shaped(e, rows, cols) && row < rows && col < cols
    ensures cands(e, row, col).Err? ==> Prefixed(acc, Propagate(cands, e, rows, cols, row, col)) == Err(cands(e, row, col).error)
    ensures cands(e, row, col).Ok? && |cands(e, row, col).value| != 1 ==>
      Prefixed(acc, Propagate(cands, e, rows, cols, row, col)) == Prefixed(acc, Propagate(cands, e, rows, cols, row, col + 1))
    ensures cands(e, row, col).Ok? && |cands(e, row, col).value| == 1 ==>
      var m := Move(cands(e, row, col).value[0].code, row, col);
      Prefixed(acc, Propagate(cands, e, rows, cols, row, col))
        == Prefixed(acc + [m], Propagate(cands, SetCell(e, row, col, Some(m.code)), rows, cols, row, col + 1))
  {
    PropagateAt(cands, e, rows, cols, row, col);
    if cands(e, row, col).Ok? && |cands(e, row, col).value| == 1 {
      var m := Move(cands(e, row, col).value[0].code, row, col);
      PrefixedConcat(acc, [m], Propagate(cands, SetCell(e, row, col, Some(m.code)), rows, cols, row, col + 1));
    }
  }

  /** Past the last column of a row, Propagate goes on with the next row. */
  lemma RowOver(cands: Oracle, e: Explored, rows: nat, cols: nat, row: nat)
    requires Shaped(e, rows, cols) && row < rows
    ensures Propagate(cands, e, rows, cols, row, cols) == Propagate(cands, e, rows, cols, row + 1, 0)
  {
  }

  /** Past the last row, Propagate adds nothing. */
  lemma PassOver(cands: Oracle, e: Explored, rows: nat, cols: nat, acc: seq<Move>)
    requires Shaped(e, rows, cols)
    ensures Prefixed(acc, Propagate(cands, e, rows, cols, rows, 0)) == Ok(acc)
  {
    assert acc + [] == acc;
  }

  /**
   * The diagonal pass from cursor (s, row) on the grid cur with the moves
   * acc committed, behind acc.
   */
  ghost function WaveRest(cands: Oracle, cur: Explored, acc: seq<Move>, rows: nat, cols: nat, s: nat, row: nat): Wave
  {
    if Shaped(cur, rows, cols) && MovesFit(acc, cur) && WaveStart(cols, s) <= row
    then Ahead(acc, Wavefront(cands, Commit(cur, acc), rows, cols, s, row))
    else Done(acc)
  }

  /** With no moves yet, the rest of the pass is the whole of it. */
  lemma WaveBegin(cands: Oracle, e: Explored, rows: nat, cols: nat)
    requires Shaped(e, rows, cols)
    ensures WaveRest(cands, e, [], rows, cols, 0, WaveStart(cols, 0)) == Wavefront(cands, e, rows, cols, 0, WaveStart(cols, 0))
  {
    AheadNothing(Wavefront(cands, e, rows, cols, 0, WaveStart(cols, 0)));
  }

  /** Past the last diagonal, the pass adds nothing to acc. */
  lemma WaveOver(cands: Oracle, e: Explored, acc: seq<Move>, rows: nat, cols: nat, s: nat)
    requires Shaped(e, rows, cols) && MovesFit(acc, e) && s >= rows + cols - 1
    ensures WaveRest(cands, e, acc, rows, cols, s, WaveStart(cols, s)) == Done(acc)
  {
    assert acc + [] == acc;
  }

  /** Past the last row of diagonal s, the pass goes on with the next diagonal. */
  lemma WaveNext(cands: Oracle, e: Explored, acc: seq<Move>, rows: nat, cols: nat, s: nat, row: nat)
    requires Shaped(e, rows, cols) && MovesFit(acc, e)
    requires s < rows + cols - 1 && WaveStart(cols, s) <= row && WaveEnd(rows, s) <= row
    ensures WaveRest(cands, e, acc, rows, cols, s, row) == WaveRest(cands, e, acc, rows, cols, s + 1, WaveStart(cols, s + 1))
  {
  }

  /** The pass passes over an explored cell of diagonal s. */
  lemma WaveSkip(cands: Oracle, cur: Explored, acc: seq<Move>, rows: nat, cols: nat, s: nat, row: nat)
    requires Shaped(cur, rows, cols) && MovesFit(acc, cur)
    requires s < rows + cols - 1 && WaveStart(cols, s) <= row < WaveEnd(rows, s)
    requires Commit(cur, acc)[row][s - row].Some?
    ensures WaveRest(cands, cur, acc, rows, cols, s, row) == WaveRest(cands, cur, acc, rows, cols, s, row + 1)
  {
  }

  /** The pass ends at an unexplored cell without exactly one candidate. */
  lemma WaveStop(cands: Oracle, cur: Explored, acc: seq<Move>, rows: nat, cols: nat, s: nat, row: nat)
    requires Shaped(cur, rows, cols) && MovesFit(acc, cur)
    requires s < rows + cols - 1 && WaveStart(cols, s) <= row < WaveEnd(rows, s)
    requires Commit(cur, acc)[row][s - row].None?
    ensures var vr := cands(Commit(cur, acc), row, s - row);
      && (vr.Err? ==> WaveRest(cands, cur, acc, rows, cols, s, row) == Failed(vr.error))
      && (vr.Ok? && |vr.value| > 1 ==> WaveRest(cands, cur, acc, rows, cols, s, row) == Branch(acc, vr.value))
      && (vr.Ok? && |vr.value| == 0 ==> WaveRest(cands, cur, acc, rows, cols, s, row) == Stuck(acc, (row, s - row)))
  {
    var e := Commit(cur, acc);
    var w := Wavefront(cands, e, rows, cols, s, row);
    assert WaveRest(cands, cur, acc, rows, cols, s, row) == Ahead(acc, w);
    var vr := cands(e, row, s - row);
    if vr.Ok? && |vr.value| != 1 {
      assert w.prefix == [];
      assert acc + [] == acc;
    }
  }

  /** The pass commits an unexplored cell with one candidate and goes on behind it. */
  lemma WaveFix(cands: Oracle, cur: Explored, acc: seq<Move>, rows: nat, cols: nat, s: nat, row: nat)
    requires Shaped(cur, rows, cols) && MovesFit(acc, cur)
    requires s < rows + cols - 1 && WaveStart(cols, s) <= row < WaveEnd(rows, s)
    requires Commit(cur, acc)[row][s - row].None?
    requires var vr := cands(Commit(cur, acc), row, s - row); vr.Ok? && |vr.value| == 1
    ensures var m := Move(cands(Commit(cur, acc), row, s - row).value[0].code, row, s - row);
      && MovesFit(acc + [m], cur)
      && WaveRest(cands, cur, acc, rows, cols, s, row) == WaveRest(cands, cur, acc + [m], rows, cols, s, row + 1)
  {
    var m := Move(cands(Commit(cur, acc), row, s - row).value[0].code, row, s - row);
    MovesFitSnoc(acc, m, cur);
    CommitSnoc(cur, acc, m);
    AheadPreceded(acc, m, Wavefront(cands, Commit(cur, acc + [m]), rows, cols, s, row + 1));
  }
}
