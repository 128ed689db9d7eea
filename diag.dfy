/**
 * The diagonal draft's board (base/SUBMISSAO_DIAG.py). It keeps the
 * fields of the final board (grid, explored grid, flags and counters) for a
 * rectangular grid, plus unique_grid, the grid of codes actions has chosen.
 * Its candidates apply the pattern rule to terminals only, its h is the
 * length of the action that led to the board, and it has is_loop.
 */
module Diag {
  import opened Wrappers
  import opened Pieces
  import opened Grids
  import opened Candidates
  import opened Scan
  import opened Traversal
  import opened Solver

  class DiagBoard {
    /** The grid, the explored grid, the flags and the counters. */
    const board: Board
    /** unique_grid: every code actions committed, and at a branch the last choice. */
    var uniqueGrid: array2<Option<Code>>

    ghost predicate Valid()
      reads this, board
    {
      && board.Valid()
      && uniqueGrid.Length0 == board.numRows && uniqueGrid.Length1 == board.numCols
      && uniqueGrid != board.explored
    }

    /** unique_grid, row by row. */
    function Unique(): Explored
      reads this, uniqueGrid
    {
      Rows(uniqueGrid)
    }

    /** get_valid_rotations of this draft: the pattern rule applies to terminals only. */
    function Rotations(): Oracle
      reads board.grid
    {
      CandidatesOf(TerminalsOnly, board.Codes(), board.numRows, board.numCols)
    }

    /**
     * Board(grid): the dimensions come from the grid and its first row,
     * board_size is their product, and nothing is explored yet.
     */
    constructor (g: Grid)
      requires |g| > 0 && Shaped(g, |g|, |g[0]|)
      ensures Valid() && fresh(board) && fresh(board.grid) && fresh(board.explored) && fresh(uniqueGrid)
      ensures board.numRows == |g| && board.numCols == |g[0]| && board.boardSize == |g| * |g[0]|
      ensures board.Codes() == g
      ensures board.Fixed() == Filled(|g|, |g[0]|, None) && Unique() == Filled(|g|, |g[0]|, None)
      ensures !board.invalid && board.unique && board.actionCount == 0 && board.exploredCount == 0
      ensures board.lastAction == None
    {
      var b := new Board.Sized(g, |g|, |g[0]|);
      var blank := FromRows(Filled(|g|, |g[0]|, None), |g|, |g[0]|);
      board, uniqueGrid := b, blank;
    }

    /** result's new board: a copied board and a copy of unique_grid. */
    constructor Copy(b: Board, u: Explored)
      requires b.Valid() && Shaped(u, b.numRows, b.numCols)
      ensures Valid() && board == b && Unique() == u && fresh(uniqueGrid)
    {
      var copy := FromRows(u, b.numRows, b.numCols);
      board, uniqueGrid := b, copy;
    }

    /** The unique_grid writes of actions, one move after another. */
    method Mirror(ms: seq<Move>)
      requires Valid() && MovesInGrid(ms, board.numRows, board.numCols)
      modifies uniqueGrid
      ensures MovesFit(ms, old(Unique())) && Unique() == Commit(old(Unique()), ms)
    {
      ghost var u0 := Unique();
      for k := 0 to |ms|
        invariant MovesFit(ms[..k], u0) && Unique() == Commit(u0, ms[..k])
      {
        var m := ms[k];
        assert ms[..k + 1] == ms[..k] + [m];
        ghost var u := Unique();
        RowsMeaning(uniqueGrid);
        uniqueGrid[m.row, m.col] := Some(m.code);
        RowsMeaning(uniqueGrid);
        SameGrid(Unique(), SetCell(u, m.row, m.col, Some(m.code)), board.numRows, board.numCols);
        MovesFitSnoc(ms[..k], m, u0);
        CommitSnoc(u0, ms[..k], m);
      }
      assert ms[..|ms|] == ms;
    }

    /**
     * PipeMania.actions of this draft: the final draft's passes with this
     * draft's candidates, and every committed code, and at a branch every
     * choice in turn, also written into unique_grid.
     */
    method Actions() returns (r: Result<seq<Action>, Failure>)
      requires Valid()
      modifies board`unique, board`invalid, board.explored, uniqueGrid
      ensures Valid()
      ensures Scan.Actions(Rotations(), old(board.Fixed()), board.numRows, board.numCols, old(board.unique), old(board.invalid)).Err?
        <==> r.Err?
      ensures r.Ok? ==>
        var st := Scan.Actions(Rotations(), old(board.Fixed()), board.numRows, board.numCols, old(board.unique), old(board.invalid)).value;
        r.value == st.actions && board.Fixed() == st.explored && board.unique == st.unique && board.invalid == st.invalid
      ensures r.Ok? ==>
        var ms := Mirrored(Rotations(), old(board.Fixed()), board.numRows, board.numCols, old(board.unique), old(board.invalid));
        MovesFit(ms, old(Unique())) && Unique() == Commit(old(Unique()), ms)
    {
      if board.invalid {
        assert Commit(Unique(), []) == Unique();
        return Ok([]);
      }
      var cands := Rotations();
      CandidatesSound(TerminalsOnly, board.Codes(), board.numRows, board.numCols);
      r := Passes(cands);
    }

    /** actions on a board not known to be invalid, for the candidates cands. */
    method Passes(cands: Oracle) returns (r: Result<seq<Action>, Failure>)
      requires Valid() && !board.invalid && Sound(cands, board.numRows, board.numCols)
      modifies board`unique, board`invalid, board.explored, uniqueGrid
      ensures Scan.Actions(cands, old(board.Fixed()), board.numRows, board.numCols, old(board.unique), false).Err?
        <==> r.Err?
      ensures r.Ok? ==>
        var st := Scan.Actions(cands, old(board.Fixed()), board.numRows, board.numCols, old(board.unique), false).value;
        r.value == st.actions && board.Fixed() == st.explored && board.unique == st.unique && board.invalid == st.invalid
      ensures r.Ok? ==>
        var ms := Mirrored(cands, old(board.Fixed()), board.numRows, board.numCols, old(board.unique), false);
        MovesFit(ms, old(Unique())) && Unique() == Commit(old(Unique()), ms)
    {
      ghost var e0 := board.Fixed();
      ghost var rows, cols, unique0 := board.numRows, board.numCols, board.unique;
      if board.unique {
        var done;
        r, done := ForcedActions(cands);
        if done {
          return;
        }
      }
      board.unique := false;
      WaveOnly(cands, e0, rows, cols, unique0);
      r := DiagonalPass(cands);
    }

    /**
     * The forced pass of actions on a board still in its propagation phase:
     * done when that pass fails or fixes some cell, which then ends actions.
     */
    method ForcedActions(cands: Oracle) returns (r: Result<seq<Action>, Failure>, done: bool)
      requires Valid() && !board.invalid && board.unique && Sound(cands, board.numRows, board.numCols)
      modifies board.explored, uniqueGrid
      ensures done ==>
        (Scan.Actions(cands, old(board.Fixed()), board.numRows, board.numCols, true, false).Err? <==> r.Err?)
      ensures done && r.Ok? ==>
        var st := Scan.Actions(cands, old(board.Fixed()), board.numRows, board.numCols, true, false).value;
        r.value == st.actions && board.Fixed() == st.explored && st.unique && !st.invalid
      ensures done && r.Ok? ==>
        var ms := Mirrored(cands, old(board.Fixed()), board.numRows, board.numCols, true, false);
        MovesFit(ms, old(Unique())) && Unique() == Commit(old(Unique()), ms)
      ensures !done ==> Propagate(cands, old(board.Fixed()), board.numRows, board.numCols, 0, 0) == Ok([])
      ensures !done ==> board.Fixed() == old(board.Fixed()) && Unique() == old(Unique())
    {
      ghost var e0 := board.Fixed();
      var forced := ForcedPass(cands);
      if forced.Err? {
        return Err(forced.error), true;
      }
      if |forced.value| > 0 {
        ForcedStep(cands, e0, board.numRows, board.numCols);
        return Ok([Batch(forced.value)]), true;
      }
      assert forced.value == [];
      return Ok([]), false;
    }

    /** The forced pass of actions with its unique_grid writes. */
    method ForcedPass(cands: Oracle) returns (r: Result<seq<Move>, Failure>)
      requires Valid() && Sound(cands, board.numRows, board.numCols)
      modifies board.explored, uniqueGrid
      ensures r.Err? <==> Propagate(cands, old(board.Fixed()), board.numRows, board.numCols, 0, 0).Err?
      ensures r.Ok? ==> r == Propagate(cands, old(board.Fixed()), board.numRows, board.numCols, 0, 0)
      ensures r.Ok? ==> board.Fixed() == Commit(old(board.Fixed()), r.value)
      ensures r.Ok? ==> Unique() == Commit(old(Unique()), r.value)
      ensures r.Ok? && |r.value| == 0 ==> board.Fixed() == old(board.Fixed()) && Unique() == old(Unique())
    {
      ghost var e0 := board.Fixed();
      r := board.ForcedPass(cands);
      if r.Ok? {
        Mirror(r.value);
        if |r.value| == 0 {
          assert Commit(e0, []) == e0;
        }
      }
    }

    /**
     * The diagonal pass of actions with its unique_grid writes: the moves
     * the pass fixes, and at a branch every choice in turn.
     */
    method DiagonalPass(cands: Oracle) returns (r: Result<seq<Action>, Failure>)
      requires Valid() && !board.invalid && Sound(cands, board.numRows, board.numCols)
      modifies board`invalid, board.explored, uniqueGrid
      ensures WaveStep(cands, old(board.Fixed()), board.numRows, board.numCols).Err? <==> r.Err?
      ensures r.Ok? ==>
        var st := WaveStep(cands, old(board.Fixed()), board.numRows, board.numCols).value;
        r.value == st.actions && board.Fixed() == st.explored && board.invalid == st.invalid
      ensures r.Ok? ==>
        var ms := WaveMirrored(cands, old(board.Fixed()), board.numRows, board.numCols);
        MovesFit(ms, old(Unique())) && Unique() == Commit(old(Unique()), ms)
    {
      ghost var u0 := Unique();
      ghost var e0 := board.Fixed();
      WaveChoicesInGrid(cands, e0, board.numRows, board.numCols);
      var w := board.WavePass(cands);
      if w.Failed? {
        return Err(w.failure);
      }
      Mirror(w.prefix);
      if w.Branch? {
        Mirror(w.choices);
        CommitConcat(u0, w.prefix, w.choices);
      }
      assert Unique() == Commit(u0, WaveMirrored(cands, e0, board.numRows, board.numCols));
      match w
      case Branch(p, ch) =>
        var actions := Fork(p, ch);
        r := Ok(actions);
      case Stuck(p, _) =>
        if |p| == 0 {
          board.invalid := true;
          r := Ok([]);
        } else {
          r := Ok(Singles(p));
        }
      case Done(p) =>
        r := Ok([Batch(p)]);
    }

    /**
     * PipeMania.result of this draft: the final draft's result, with the
     * parent's unique_grid copied into the new board unchanged.
     */
    method Result(action: Action) returns (child: DiagBoard)
      requires Valid() && MovesInGrid(MovesOf(action), board.numRows, board.numCols)
      modifies board`invalid
      ensures Valid() && Unique() == old(Unique())
      ensures board.invalid && board.explored == old(board.explored) && board.unique == old(board.unique)
      ensures board.actionCount == old(board.actionCount) && board.exploredCount == old(board.exploredCount)
      ensures board.lastAction == old(board.lastAction)
      ensures fresh(child) && fresh(child.board) && fresh(child.uniqueGrid) && child.Valid()
      ensures child.board.numRows == board.numRows && child.board.numCols == board.numCols
      ensures child.board.boardSize == board.numRows * board.numCols
      ensures MovesFit(MovesOf(action), old(board.Codes())) && MovesFit(MovesOf(action), old(board.Fixed()))
      ensures child.board.Codes() == Place(old(board.Codes()), MovesOf(action))
      ensures child.board.Fixed() == Commit(old(board.Fixed()), MovesOf(action))
      ensures child.Unique() == Unique()
      ensures !child.board.invalid && child.board.unique == board.unique && child.board.lastAction == Some(action)
      ensures child.board.exploredCount == board.exploredCount + |MovesOf(action)|
      ensures child.H() == ActionLength(action)
    {
      var u := Unique();
      var b := board.Result(action);
      child := new DiagBoard.Copy(b, u);
    }

    /** h of this draft: board_size + 1 on an invalid board, else action_count. */
    function H(): (h: int)
      reads this, board
      ensures board.invalid ==> h == board.boardSize + 1
      ensures !board.invalid ==> h == board.actionCount
    {
      if board.invalid then board.boardSize + 1 else board.actionCount
    }

    /**
     * is_loop: the search from (row, col) along get_reachable, which
     * answers False as soon as a link leads to an unexplored cell and True
     * once the queue is empty. It answers Traversal.IsLoop.
     */
    method IsLoop(row: nat, col: nat) returns (b: bool)
      requires Valid() && row < board.numRows && col < board.numCols
      ensures b == Traversal.IsLoop(board.Codes(), board.Fixed(), board.numRows, board.numCols, row, col)
    {
      var g, e := board.Codes(), board.Fixed();
      var rows, cols := board.numRows, board.numCols;
      ghost var adj := ConnectorLinks(g, rows, cols);
      ConnectorLinksStayInGrid(g, rows, cols);
      var visited: set<Cell> := {};
      var queue: seq<Cell> := [(row, col)];
      ghost var answer := LoopSearch(adj, e, rows, cols, visited, queue);
      while |queue| > 0
        invariant visited <= AllCells(rows, cols) && CellsInGrid(queue, rows, cols)
        invariant answer == LoopSearch(adj, e, rows, cols, visited, queue)
        decreases AllCells(rows, cols) - visited, CountVisited(queue, visited)
      {
        var cur := queue[0];
        LoopPops(adj, e, rows, cols, visited, queue);
        var next := Neighbours(g, rows, cols, cur.0, cur.1);
        assert next == adj(cur);
        visited := visited + {cur};
        var q := Enlist(next, e, rows, cols, visited, queue[1..]);
        if q.None? {
          return false;
        }
        queue := q.value;
      }
      return true;
    }
  }

  /**
   * The moves actions writes into unique_grid: the forced batch, or the
   * moves the diagonal pass fixed and, at a branch, every choice in turn.
   */
  function Mirrored(cands: Oracle, e: Explored, rows: nat, cols: nat, unique: bool, invalid: bool): seq<Move>
    requires Shaped(e, rows, cols)
  {
    if invalid then []
    else
      var pass := if unique then Propagate(cands, e, rows, cols, 0, 0) else Ok([]);
      if pass.Err? then []
      else if |pass.value| > 0 then pass.value
      else WaveMirrored(cands, e, rows, cols)
  }

  /** actions ends with the forced pass when that fixes some cell. */
  lemma ForcedStep(cands: Oracle, e: Explored, rows: nat, cols: nat)
    requires Shaped(e, rows, cols)
    requires var pass := Propagate(cands, e, rows, cols, 0, 0); pass.Ok? && |pass.value| > 0
    ensures var ms := Propagate(cands, e, rows, cols, 0, 0).value;
      && Scan.Actions(cands, e, rows, cols, true, false) == Ok(Step([Batch(ms)], Commit(e, ms), true, false))
      && Mirrored(cands, e, rows, cols, true, false) == ms
  {
  }

  /** actions goes on to the diagonal pass when the forced pass is skipped or fixes nothing. */
  lemma WaveOnly(cands: Oracle, e: Explored, rows: nat, cols: nat, unique: bool)
    requires Shaped(e, rows, cols)
    requires unique ==> Propagate(cands, e, rows, cols, 0, 0) == Ok([])
    ensures Scan.Actions(cands, e, rows, cols, unique, false) == WaveStep(cands, e, rows, cols)
    ensures Mirrored(cands, e, rows, cols, unique, false) == WaveMirrored(cands, e, rows, cols)
  {
  }

  /** The unique_grid writes of the diagonal pass. */
  function WaveMirrored(cands: Oracle, e: Explored, rows: nat, cols: nat): seq<Move>
    requires Shaped(e, rows, cols)
  {
    match Wavefront(cands, e, rows, cols, 0, WaveStart(cols, 0))
    case Failed(_) => []
    case Done(p) => p
    case Stuck(p, _) => p
    case Branch(p, ch) => p + ch
  }

  /** At a branch of the diagonal pass, every choice is a move at the branch cell. */
  lemma WaveChoicesInGrid(cands: Oracle, e: Explored, rows: nat, cols: nat)
    requires Sound(cands, rows, cols) && Shaped(e, rows, cols)
    ensures var w := Wavefront(cands, e, rows, cols, 0, WaveStart(cols, 0));
      w.Branch? ==>
        && |w.choices| > 1
        && StopsAt(cands, Commit(e, w.prefix), rows, cols, CellOf(w.choices[0]), w.choices)
        && (forall k :: 0 <= k < |w.choices| ==> CellOf(w.choices[k]) == CellOf(w.choices[0]))
        && MovesInGrid(w.choices, rows, cols)
  {
    var w := Wavefront(cands, e, rows, cols, 0, WaveStart(cols, 0));
    assert ExploredBefore(e, rows, cols, WaveCursor(0, WaveStart(cols, 0)));
    WavefrontOutcome(cands, e, rows, cols, 0, WaveStart(cols, 0));
    if w.Branch? {
      var e1 := Commit(e, w.prefix);
      var c := CellOf(w.choices[0]);
      assert cands(e1, c.0, c.1) == Ok(w.choices);
      assert Shaped(e1, rows, cols);
    }
  }

  /** The moves written into unique_grid all lie on the grid. */
  lemma MirroredInGrid(cands: Oracle, e: Explored, rows: nat, cols: nat, unique: bool, invalid: bool)
    requires Sound(cands, rows, cols) && Shaped(e, rows, cols)
    ensures MovesInGrid(Mirrored(cands, e, rows, cols, unique, invalid), rows, cols)
  {
    var w := Wavefront(cands, e, rows, cols, 0, WaveStart(cols, 0));
    WaveChoicesInGrid(cands, e, rows, cols);
    if w.Branch? {
      var p, ch := w.prefix, w.choices;
      assert forall k :: 0 <= k < |p + ch| ==> (p + ch)[k] == if k < |p| then p[k] else ch[k - |p|];
    }
  }

  /** The last move at a cell is the same with moves elsewhere after it. */
  lemma {:induction false} LastAtElsewhere(a: seq<Move>, b: seq<Move>, row: int, col: int)
    requires forall k :: 0 <= k < |b| ==> CellOf(b[k]) != (row, col)
    ensures LastAt(a + b, row, col) == LastAt(a, row, col)
    decreases |b|
  {
    if |b| == 0 {
      assert a + b == a;
    } else {
      var b' := b[..|b| - 1];
      assert (a + b)[..|a + b| - 1] == a + b';
      assert (a + b)[|a + b| - 1] == b[|b| - 1];
      LastAtElsewhere(a, b', row, col);
    }
  }

  /**
   * Every cell actions fixes in the explored grid holds the same code in
   * unique_grid afterwards: the codes the two grids receive agree.
   */
  lemma MirrorAgrees(cands: Oracle, e: Explored, u: Explored, rows: nat, cols: nat, unique: bool)
    requires Sound(cands, rows, cols) && Shaped(e, rows, cols) && Shaped(u, rows, cols)
    ensures var r := Scan.Actions(cands, e, rows, cols, unique, false);
      var ms := Mirrored(cands, e, rows, cols, unique, false);
      r.Ok? ==>
        && MovesFit(ms, u)
        && forall i, j :: 0 <= i < rows && 0 <= j < cols && r.value.explored[i][j] != e[i][j] ==>
             Commit(u, ms)[i][j] == r.value.explored[i][j]
  {
    var r := Scan.Actions(cands, e, rows, cols, unique, false);
    var ms := Mirrored(cands, e, rows, cols, unique, false);
    MirroredInGrid(cands, e, rows, cols, unique, false);
    var pass := if unique then Propagate(cands, e, rows, cols, 0, 0) else Ok([]);
    var w := Wavefront(cands, e, rows, cols, 0, WaveStart(cols, 0));
    WaveChoicesInGrid(cands, e, rows, cols);
    if r.Ok? {
      var p := if pass.Ok? && |pass.value| > 0 then pass.value else w.prefix;
      assert MovesFit(p, e) && r.value.explored == Commit(e, p);
      forall i, j | 0 <= i < rows && 0 <= j < cols && r.value.explored[i][j] != e[i][j]
        ensures Commit(u, ms)[i][j] == r.value.explored[i][j]
      {
        CommitAt(e, p, i, j);
        CommitAt(u, ms, i, j);
        if !(pass.Ok? && |pass.value| > 0) && w.Branch? {
          var c := CellOf(w.choices[0]);
          assert (i, j) != c;
          LastAtElsewhere(p, w.choices, i, j);
        }
      }
    }
  }

  /** The shape of branch actions: one batch per choice, all alike but for the last move's code. */
  predicate Forks(acts: seq<Action>)
  {
    && |acts| > 0 && acts[0].Batch? && |acts[0].moves| > 0
    && forall k :: 0 <= k < |acts| ==>
         && acts[k].Batch? && |acts[k].moves| == |acts[0].moves|
         && acts[k].moves[..|acts[0].moves| - 1] == acts[0].moves[..|acts[0].moves| - 1]
         && CellOf(acts[k].moves[|acts[0].moves| - 1]) == CellOf(acts[0].moves[|acts[0].moves| - 1])
  }

  /**
   * When actions offers several batches, they share the forced prefix and
   * differ only in the last move, all at one cell, and unique_grid holds
   * the last batch's choice there.
   */
  lemma BranchMirror(cands: Oracle, e: Explored, u: Explored, rows: nat, cols: nat, unique: bool)
    requires Sound(cands, rows, cols) && Shaped(e, rows, cols) && Shaped(u, rows, cols)
    ensures var r := Scan.Actions(cands, e, rows, cols, unique, false);
      var ms := Mirrored(cands, e, rows, cols, unique, false);
      r.Ok? && |r.value.actions| > 1 && r.value.actions[0].Batch? ==>
        var last := r.value.actions[|r.value.actions| - 1].moves;
        && Forks(r.value.actions)
        && MovesFit(ms, u)
        && InGrid(rows, cols, last[|last| - 1].row, last[|last| - 1].col)
        && Commit(u, ms)[last[|last| - 1].row][last[|last| - 1].col] == Some(last[|last| - 1].code)
  {
    var r := Scan.Actions(cands, e, rows, cols, unique, false);
    var ms := Mirrored(cands, e, rows, cols, unique, false);
    var w := Wavefront(cands, e, rows, cols, 0, WaveStart(cols, 0));
    OnlyBranchForks(cands, e, rows, cols, unique);
    if r.Ok? && |r.value.actions| > 1 && r.value.actions[0].Batch? {
      WaveOnly(cands, e, rows, cols, unique);
      WaveBranch(cands, e, rows, cols, w.prefix, w.choices);
      BranchForks(w.prefix, w.choices);
      MirroredInGrid(cands, e, rows, cols, unique, false);
      BranchLast(u, rows, cols, w.prefix, w.choices);
    }
  }

  /** The branch's moves fit unique_grid, and its last choice is what that grid then holds. */
  lemma BranchLast(u: Explored, rows: nat, cols: nat, p: seq<Move>, ch: seq<Move>)
    requires Shaped(u, rows, cols) && |ch| > 0 && MovesInGrid(p + ch, rows, cols)
    ensures var m := ch[|ch| - 1];
      && MovesFit(p + ch, u)
      && InGrid(rows, cols, m.row, m.col)
      && Commit(u, p + ch)[m.row][m.col] == Some(m.code)
  {
    var ms := p + ch;
    assert ms[|ms| - 1] == ch[|ch| - 1];
    assert MovesFit(ms, u) by {
      forall k | 0 <= k < |ms| ensures 0 <= ms[k].row < |u| && 0 <= ms[k].col < |u[ms[k].row]| {
        assert InGrid(rows, cols, ms[k].row, ms[k].col);
      }
    }
    CommitLast(u, ms);
  }

  /** Several batches come only from a branch of the diagonal pass. */
  lemma OnlyBranchForks(cands: Oracle, e: Explored, rows: nat, cols: nat, unique: bool)
    requires Shaped(e, rows, cols)
    ensures var r := Scan.Actions(cands, e, rows, cols, unique, false);
      r.Ok? && |r.value.actions| > 1 && r.value.actions[0].Batch? ==>
        && (unique ==> Propagate(cands, e, rows, cols, 0, 0) == Ok([]))
        && Wavefront(cands, e, rows, cols, 0, WaveStart(cols, 0)).Branch?
  {
    var pass := if unique then Propagate(cands, e, rows, cols, 0, 0) else Ok([]);
    if pass.Ok? && |pass.value| == 0 {
      WaveOnly(cands, e, rows, cols, unique);
      var w := Wavefront(cands, e, rows, cols, 0, WaveStart(cols, 0));
      if w.Stuck? && |w.prefix| > 0 {
        assert Scan.Actions(cands, e, rows, cols, unique, false).value.actions[0].Single?;
      }
    }
  }

  /** At a branch of the diagonal pass: the step and the unique_grid writes. */
  lemma WaveBranch(cands: Oracle, e: Explored, rows: nat, cols: nat, p: seq<Move>, ch: seq<Move>)
    requires Sound(cands, rows, cols) && Shaped(e, rows, cols)
    requires Wavefront(cands, e, rows, cols, 0, WaveStart(cols, 0)) == Branch(p, ch)
    ensures |ch| > 1 && forall k :: 0 <= k < |ch| ==> CellOf(ch[k]) == CellOf(ch[0])
    ensures WaveStep(cands, e, rows, cols) == Ok(Step(BranchActions(p, ch), Commit(e, p), false, false))
    ensures WaveMirrored(cands, e, rows, cols) == p + ch
  {
    WaveChoicesInGrid(cands, e, rows, cols);
  }

  /** The last move committed is what the grid holds at its cell. */
  lemma CommitLast(u: Explored, ms: seq<Move>)
    requires |ms| > 0 && MovesFit(ms, u)
    ensures var m := ms[|ms| - 1];
      0 <= m.row < |u| && 0 <= m.col < |u[m.row]| && Commit(u, ms)[m.row][m.col] == Some(m.code)
  {
    var m := ms[|ms| - 1];
    assert LastAt(ms, m.row, m.col) == Some(m.code);
    CommitAt(u, ms, m.row, m.col);
  }

  /** Branch actions fork at one cell, and the last batch ends with the last choice. */
  lemma BranchForks(p: seq<Move>, ch: seq<Move>)
    requires |ch| > 0 && forall k :: 0 <= k < |ch| ==> CellOf(ch[k]) == CellOf(ch[0])
    ensures Forks(BranchActions(p, ch))
    ensures var last := BranchActions(p, ch)[|ch| - 1].moves; last[|last| - 1] == ch[|ch| - 1]
  {
    var acts := BranchActions(p, ch);
    forall k | 0 <= k < |acts|
      ensures acts[k].moves[..|acts[0].moves| - 1] == acts[0].moves[..|acts[0].moves| - 1]
    {
      assert acts[k].moves[..|p|] == p;
    }
  }

  /**
   * One turn of is_loop's while loop: the popped cell is on the grid, and
   * the search goes on from the queue its links leave, on a smaller
   * measure, or ends at an unexplored link.
   */
  lemma LoopPops(adj: Adjacency, e: Explored, rows: int, cols: int, visited: set<Cell>, q: seq<Cell>)
    requires Shaped(e, rows, cols) && StaysInGrid(adj, rows, cols) && visited <= AllCells(rows, cols)
    requires CellsInGrid(q, rows, cols) && |q| > 0
    ensures q[0] in AllCells(rows, cols) && CellsInGrid(adj(q[0]), rows, cols)
    ensures q[0] !in visited ==> AllCells(rows, cols) - (visited + {q[0]}) < AllCells(rows, cols) - visited
    ensures var v := visited + {q[0]};
      var qu := QueueUnvisited(adj(q[0]), e, rows, cols, v, q[1..]);
      && (qu.None? ==> LoopSearch(adj, e, rows, cols, visited, q) == None)
      && (qu.Some? ==>
            && CellsInGrid(qu.value, rows, cols)
            && LoopSearch(adj, e, rows, cols, visited, q) == LoopSearch(adj, e, rows, cols, v, qu.value)
            && (q[0] in visited ==> CountVisited(qu.value, v) < CountVisited(q, visited)))
  {
    var c := q[0];
    var v := visited + {c};
    assert c in AllCells(rows, cols);
    var qu := QueueUnvisited(adj(c), e, rows, cols, v, q[1..]);
    if qu.Some? {
      var q' := qu.value;
      assert CellsInGrid(q', rows, cols) by {
        forall k | 0 <= k < |q'| ensures InGrid(rows, cols, q'[k].0, q'[k].1) {
          if k < |q| - 1 {
            assert q'[k] == q'[..|q| - 1][k] == q[1..][k] == q[k + 1];
          }
        }
      }
      if c in visited {
        assert v == visited;
        CountDrops(q, q', visited);
      }
    }
  }

  /**
   * The for loop of is_loop over the links of the popped cell: None at the
   * first unexplored one, else the queue with the unvisited ones appended.
   */
  method Enlist(next: seq<Cell>, e: Explored, rows: nat, cols: nat, visited: set<Cell>, q: seq<Cell>)
    returns (r: Option<seq<Cell>>)
    requires Shaped(e, rows, cols) && CellsInGrid(next, rows, cols)
    ensures r == QueueUnvisited(next, e, rows, cols, visited, q)
  {
    var acc := q;
    for k := 0 to |next|
      invariant CellsInGrid(next[k..], rows, cols)
      invariant QueueUnvisited(next, e, rows, cols, visited, q) == QueueUnvisited(next[k..], e, rows, cols, visited, acc)
    {
      var n := next[k];
      assert next[k..][0] == n && next[k..][1..] == next[k + 1..];
      if e[n.0][n.1].None? {
        return None;
      }
      if n !in visited {
        acc := acc + [n];
      }
    }
    return Some(acc);
  }
}
