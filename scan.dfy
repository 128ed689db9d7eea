/**
 * The two passes of `actions` in the final solver and the diagonal draft,
 * as functions of the board's grids: the row-major propagation pass that
 * commits every cell with exactly one candidate, and the anti-diagonal
 * wavefront that stops at the first cell that is not forced.
 */
module Scan {
  import opened Wrappers
  import opened Pieces
  import opened Grids
  import opened Candidates

  function Max(a: int, b: int): int { if a < b then b else a }
  function Min(a: int, b: int): int { if a < b then a else b }

  /** (row, col) order of the nested row and column loops. */
  predicate RowMajorLess(a: Cell, b: Cell)
  {
    a.0 < b.0 || (a.0 == b.0 && a.1 < b.1)
  }

  /** (row + col, row) order of the anti-diagonal loops. */
  predicate WaveLess(a: Cell, b: Cell)
  {
    a.0 + a.1 < b.0 + b.1 || (a.0 + a.1 == b.0 + b.1 && a.0 < b.0)
  }

  /** The first row of anti-diagonal s: max(0, s - cols + 1). */
  function WaveStart(cols: int, s: int): nat { if s - cols + 1 > 0 then s - cols + 1 else 0 }

  /** The row bound of anti-diagonal s: min(s + 1, rows). */
  function WaveEnd(rows: int, s: int): int { Min(s + 1, rows) }

  /**
   * The cells `for s in range(rows + cols - 1): for row in
   * range(max(0, s - cols + 1), min(s + 1, rows))` visits from cursor
   * (s, row) on: every in-grid cell at or after the cursor, once each, in
   * increasing (row + col, row) order.
   */
  function WavefrontFrom(rows: nat, cols: nat, s: nat, row: int): (r: seq<Cell>)
    requires WaveStart(cols, s) <= row
    ensures CellsInGrid(r, rows, cols)
    ensures forall c :: c in r <==> InGrid(rows, cols, c.0, c.1) && !WaveLess(c, (row, s - row))
    ensures forall i, j :: 0 <= i < j < |r| ==> WaveLess(r[i], r[j])
    decreases rows + cols - 1 - s, rows - row
  {
    if s >= rows + cols - 1 then []
    else if row >= WaveEnd(rows, s) then WavefrontFrom(rows, cols, s + 1, WaveStart(cols, s + 1))
    else [(row, s - row)] + WavefrontFrom(rows, cols, s, row + 1)
  }

  /** Every cell of the grid, once each, in the order the wavefront visits. */
  lemma WavefrontVisitsEveryCell(rows: nat, cols: nat)
    ensures forall c :: c in WavefrontFrom(rows, cols, 0, WaveStart(cols, 0)) <==> InGrid(rows, cols, c.0, c.1)
    ensures forall i, j :: 0 <= i < j < |WavefrontFrom(rows, cols, 0, WaveStart(cols, 0))| ==>
      WavefrontFrom(rows, cols, 0, WaveStart(cols, 0))[i] != WavefrontFrom(rows, cols, 0, WaveStart(cols, 0))[j]
  {
    var w := WavefrontFrom(rows, cols, 0, WaveStart(cols, 0));
    forall i, j | 0 <= i < j < |w| ensures w[i] != w[j] {
      assert WaveLess(w[i], w[j]);
    }
  }

  // ---------------------------------------------------------------------
  // Forced runs
  // ---------------------------------------------------------------------

  /**
   * What the scans rely on from a candidate function: an explored cell has
   * no candidate, and every candidate is a move at the cell asked about.
   */
  ghost predicate Sound(cands: Oracle, rows: int, cols: int)
  {
    forall e: Explored, row: int, col: int ::
      Shaped(e, rows, cols) && InGrid(rows, cols, row, col) ==>
        && (e[row][col].Some? ==> cands(e, row, col) == Ok([]))
        && (cands(e, row, col).Ok? ==>
              forall k :: 0 <= k < |cands(e, row, col).value| ==> CellOf(cands(e, row, col).value[k]) == (row, col))
  }

  /** get_valid_rotations is a sound candidate function. */
  lemma CandidatesSound(rule: PatternRule, g: Grid, rows: int, cols: int)
    requires Shaped(g, rows, cols)
    ensures Sound(CandidatesOf(rule, g, rows, cols), rows, cols)
  {
    var cands := CandidatesOf(rule, g, rows, cols);
    forall e: Explored, row: int, col: int | Shaped(e, rows, cols) && InGrid(rows, cols, row, col)
      ensures e[row][col].Some? ==> cands(e, row, col) == Ok([])
      ensures cands(e, row, col).Ok? ==>
        forall k :: 0 <= k < |cands(e, row, col).value| ==> CellOf(cands(e, row, col).value[k]) == (row, col)
    {
      assert cands(e, row, col) == ValidRotations(rule, g, e, rows, cols, row, col);
    }
  }
  /**
   * A run of forced commits from the explored grid e: the first move was
   * the only candidate of its cell, and the rest is a forced run from the
   * grid with that move committed.
   */
  predicate Forced(cands: Oracle, e: Explored, rows: int, cols: int, ms: seq<Move>)
    decreases |ms|
  {
    || |ms| == 0
    || (&& InGrid(rows, cols, ms[0].row, ms[0].col)
        && 0 <= ms[0].row < |e| && 0 <= ms[0].col < |e[ms[0].row]|
        && cands(e, ms[0].row, ms[0].col) == Ok([ms[0]])
        && Forced(cands, SetCell(e, ms[0].row, ms[0].col, Some(ms[0].code)), rows, cols, ms[1..]))
  }

  /**
   * Every move of a forced run is on the grid and targets a cell that was
   * not explored before the run, and no two moves target the same cell.
   */
  lemma {:induction false} ForcedFresh(cands: Oracle, e: Explored, rows: int, cols: int, ms: seq<Move>)
    requires Sound(cands, rows, cols) && Shaped(e, rows, cols)
    requires Forced(cands, e, rows, cols, ms)
    ensures MovesFit(ms, e) && MovesInGrid(ms, rows, cols)
    ensures forall k :: 0 <= k < |ms| ==> e[ms[k].row][ms[k].col].None?
    ensures forall i, j :: 0 <= i < j < |ms| ==> CellOf(ms[i]) != CellOf(ms[j])
    decreases |ms|
  {
    if |ms| > 0 {
      var m := ms[0];
      var e1 := SetCell(e, m.row, m.col, Some(m.code));
      ForcedFresh(cands, e1, rows, cols, ms[1..]);
      assert cands(e, m.row, m.col) == Ok([m]);
      assert e[m.row][m.col].None?;
      forall k | 1 <= k < |ms| ensures e[ms[k].row][ms[k].col].None? && CellOf(ms[k]) != CellOf(m) {
        assert ms[k] == ms[1..][k - 1];
      }
      forall i, j | 0 <= i < j < |ms| ensures CellOf(ms[i]) != CellOf(ms[j]) {
        if i > 0 {
          assert ms[i] == ms[1..][i - 1] && ms[j] == ms[1..][j - 1];
        }
      }
    }
  }

  /** The moves of a run read in (row, col) order, all at or after c. */
  predicate RowMajorFrom(ms: seq<Move>, c: Cell)
  {
    && (forall k :: 0 <= k < |ms| ==> !RowMajorLess(CellOf(ms[k]), c))
    && (forall i, j :: 0 <= i < j < |ms| ==> RowMajorLess(CellOf(ms[i]), CellOf(ms[j])))
  }

  /** The moves of a run read in (row + col, row) order, all at or after c. */
  predicate WaveFrom(ms: seq<Move>, c: Cell)
  {
    && (forall k :: 0 <= k < |ms| ==> !WaveLess(CellOf(ms[k]), c))
    && (forall i, j :: 0 <= i < j < |ms| ==> WaveLess(CellOf(ms[i]), CellOf(ms[j])))
  }

  // ---------------------------------------------------------------------
  // The propagation pass
  // ---------------------------------------------------------------------

  /**
   * The moves the row-major pass of `actions` commits from cell (row, col)
   * on: a cell with exactly one candidate is marked explored with that
   * candidate's code before the scan moves on, so later cells see it. An
   * error of the candidate function ends the pass.
   */
  function Propagate(cands: Oracle, e: Explored, rows: nat, cols: nat, row: nat, col: nat): (r: Result<seq<Move>, Failure>)
    requires Shaped(e, rows, cols)
    ensures r.Ok? ==> MovesInGrid(r.value, rows, cols) && MovesFit(r.value, e)
    decreases rows - row, cols - col
  {
    if row >= rows then Ok([])
    else if col >= cols then Propagate(cands, e, rows, cols, row + 1, 0)
    else
      match cands(e, row, col)
      case Err(f) => Err(f)
      case Ok(c) =>
        if |c| == 1 then
          match Propagate(cands, SetCell(e, row, col, Some(c[0].code)), rows, cols, row, col + 1)
          case Err(f) => Err(f)
          case Ok(rest) => Ok([Move(c[0].code, row, col)] + rest)
        else Propagate(cands, e, rows, cols, row, col + 1)
  }

  /**
   * The pass commits a forced run, in (row, col) order, from the cell it
   * starts at.
   */
  lemma {:induction false} PropagateForces(cands: Oracle, e: Explored, rows: nat, cols: nat, row: nat, col: nat)
    requires Sound(cands, rows, cols) && Shaped(e, rows, cols)
    ensures var r := Propagate(cands, e, rows, cols, row, col);
      r.Ok? ==> Forced(cands, e, rows, cols, r.value) && RowMajorFrom(r.value, (row, col))
    decreases rows - row, cols - col
  {
    var r := Propagate(cands, e, rows, cols, row, col);
    if row >= rows {
    } else if col >= cols {
      assert r == Propagate(cands, e, rows, cols, row + 1, 0);
      PropagateForces(cands, e, rows, cols, row + 1, 0);
    } else if cands(e, row, col).Ok? && |cands(e, row, col).value| == 1 {
      var cs := cands(e, row, col).value;
      var m := Move(cs[0].code, row, col);
      assert CellOf(cs[0]) == (row, col);
      assert cs == [m];
      var e1 := SetCell(e, row, col, Some(m.code));
      var r1 := Propagate(cands, e1, rows, cols, row, col + 1);
      PropagateForces(cands, e1, rows, cols, row, col + 1);
      if r1.Ok? {
        assert r == Ok([m] + r1.value);
        PrependRowMajor(m, r1.value, row, col);
      }
    } else if cands(e, row, col).Ok? {
      assert r == Propagate(cands, e, rows, cols, row, col + 1);
      PropagateForces(cands, e, rows, cols, row, col + 1);
    }
  }

  lemma PrependRowMajor(m: Move, rest: seq<Move>, row: int, col: int)
    requires CellOf(m) == (row, col) && RowMajorFrom(rest, (row, col + 1))
    ensures RowMajorFrom([m] + rest, (row, col))
    ensures ([m] + rest)[1..] == rest
  {
    assert ([m] + rest)[1..] == rest;
    forall k | 1 <= k < |[m] + rest| ensures RowMajorLess(CellOf(m), CellOf(([m] + rest)[k])) {
      assert ([m] + rest)[k] == rest[k - 1];
    }
  }

  /**
   * The pass commits nothing exactly when no cell from the start on has a
   * single candidate, and none raises.
   */
  lemma {:induction false} PropagateQuiet(cands: Oracle, e: Explored, rows: nat, cols: nat, row: nat, col: nat)
    requires Shaped(e, rows, cols)
    ensures Propagate(cands, e, rows, cols, row, col) == Ok([]) <==>
      forall i, j :: 0 <= i < rows && 0 <= j < cols && !RowMajorLess((i, j), (row, col)) ==>
        cands(e, i, j).Ok? && |cands(e, i, j).value| != 1
    decreases rows - row, cols - col
  {
    if row >= rows {
    } else if col >= cols {
      PropagateQuiet(cands, e, rows, cols, row + 1, 0);
      forall i, j | 0 <= i < rows && 0 <= j < cols
        ensures !RowMajorLess((i, j), (row, col)) <==> !RowMajorLess((i, j), (row + 1, 0))
      {
      }
    } else {
      PropagateQuiet(cands, e, rows, cols, row, col + 1);
      forall i, j | 0 <= i < rows && 0 <= j < cols
        ensures !RowMajorLess((i, j), (row, col)) <==> (i, j) == (row, col) || !RowMajorLess((i, j), (row, col + 1))
      {
      }
    }
  }

  // ---------------------------------------------------------------------
  // The wavefront
  // ---------------------------------------------------------------------

  /**
   * How the anti-diagonal loop of `actions` ends, with the forced moves it
   * committed on the way.
   * Done: every cell passed; Branch: the first unexplored cell with several
   * candidates; Stuck: the first unexplored cell with none; Failed: the
   * candidate function raised.
   */
  datatype Wave =
    | Done(prefix: seq<Move>)
    | Branch(prefix: seq<Move>, choices: seq<Move>)
    | Stuck(prefix: seq<Move>, cell: Cell)
    | Failed(failure: Failure)

  /** The same outcome with one more forced move in front. */
  function Preceded(m: Move, w: Wave): (r: Wave)
    ensures r.Failed? == w.Failed?
    ensures !w.Failed? ==> r.prefix == [m] + w.prefix
  {
    match w
    case Done(p) => Done([m] + p)
    case Branch(p, ch) => Branch([m] + p, ch)
    case Stuck(p, c) => Stuck([m] + p, c)
    case Failed(f) => w
  }

  /** The cell the loops are at: (row, s - row). */
  function WaveCursor(s: int, row: int): Cell { (row, s - row) }

  /**
   * The anti-diagonal pass from cursor (s, row) on. Explored cells are
   * passed over; an unexplored cell with one candidate is committed; the
   * first with several or none ends the pass.
   */
  function Wavefront(cands: Oracle, e: Explored, rows: nat, cols: nat, s: nat, row: nat): (w: Wave)
    requires Shaped(e, rows, cols) && WaveStart(cols, s) <= row
    ensures !w.Failed? ==> MovesInGrid(w.prefix, rows, cols) && MovesFit(w.prefix, e)
    decreases rows + cols - 1 - s, rows - row
  {
    if s >= rows + cols - 1 then Done([])
    else if row >= WaveEnd(rows, s) then Wavefront(cands, e, rows, cols, s + 1, WaveStart(cols, s + 1))
    else
      var col := s - row;
      if e[row][col].Some? then Wavefront(cands, e, rows, cols, s, row + 1)
      else
        match cands(e, row, col)
        case Err(f) => Failed(f)
        case Ok(c) =>
          if |c| > 1 then Branch([], c)
          else if |c| == 0 then Stuck([], (row, col))
          else Preceded(Move(c[0].code, row, col), Wavefront(cands, SetCell(e, row, col, Some(c[0].code)), rows, cols, s, row + 1))
  }

  /** Every cell that comes before c in wavefront order is explored. */
  predicate ExploredBefore(e: Explored, rows: int, cols: int, c: Cell)
    requires Shaped(e, rows, cols)
  {
    forall i, j :: 0 <= i < rows && 0 <= j < cols && WaveLess((i, j), c) ==> e[i][j].Some?
  }

  /** Every cell of the grid is explored. */
  predicate AllExplored(e: Explored, rows: int, cols: int)
    requires Shaped(e, rows, cols)
  {
    forall i, j :: 0 <= i < rows && 0 <= j < cols ==> e[i][j].Some?
  }

  /**
   * The pass stops at cell c of grid e: c is the first unexplored cell in
   * wavefront order, and its candidates are cs.
   */
  predicate StopsAt(cands: Oracle, e: Explored, rows: int, cols: int, c: Cell, cs: seq<Move>)
    requires Shaped(e, rows, cols)
  {
    && InGrid(rows, cols, c.0, c.1)
    && e[c.0][c.1].None?
    && ExploredBefore(e, rows, cols, c)
    && cands(e, c.0, c.1) == Ok(cs)
  }

  /**
   * What an outcome of the pass from grid e means: its moves are a forced
   * run in wavefront order; Done leaves every cell explored; Branch and
   * Stuck stop at the first unexplored cell, after the run, with several
   * or no candidates.
   */
  predicate WaveOutcome(cands: Oracle, e: Explored, rows: int, cols: int, c: Cell, w: Wave)
    requires Shaped(e, rows, cols)
  {
    && (!w.Failed? ==>
          && Forced(cands, e, rows, cols, w.prefix)
          && MovesFit(w.prefix, e)
          && WaveFrom(w.prefix, c))
    && (w.Done? ==> AllExplored(Commit(e, w.prefix), rows, cols))
    && (w.Branch? ==>
          && |w.choices| > 1
          && StopsAt(cands, Commit(e, w.prefix), rows, cols, CellOf(w.choices[0]), w.choices)
          && !WaveLess(CellOf(w.choices[0]), c))
    && (w.Stuck? ==>
          && StopsAt(cands, Commit(e, w.prefix), rows, cols, w.cell, [])
          && !WaveLess(w.cell, c))
  }

  /** Explored-before carries over to the first cell of the next diagonal. */
  lemma ExploredPastDiagonal(e: Explored, rows: nat, cols: nat, s: nat, row: nat)
    requires row >= WaveEnd(rows, s)
    requires Shaped(e, rows, cols) && ExploredBefore(e, rows, cols, WaveCursor(s, row))
    ensures ExploredBefore(e, rows, cols, WaveCursor(s + 1, WaveStart(cols, s + 1)))
  {
    forall i, j | 0 <= i < rows && 0 <= j < cols && WaveLess((i, j), WaveCursor(s + 1, WaveStart(cols, s + 1)))
      ensures WaveLess((i, j), WaveCursor(s, row))
    {
    }
  }

  /** The pass from the cursor on gives an outcome with the meaning above. */
  lemma {:induction false} WavefrontOutcome(cands: Oracle, e: Explored, rows: nat, cols: nat, s: nat, row: nat)
    requires Sound(cands, rows, cols) && Shaped(e, rows, cols) && WaveStart(cols, s) <= row
    requires ExploredBefore(e, rows, cols, WaveCursor(s, row))
    ensures WaveOutcome(cands, e, rows, cols, WaveCursor(s, row), Wavefront(cands, e, rows, cols, s, row))
    decreases rows + cols - 1 - s, rows - row, 1
  {
    if s >= rows + cols - 1 {
      assert Wavefront(cands, e, rows, cols, s, row) == Done([]);
    } else if row >= WaveEnd(rows, s) {
      WaveNextDiagonal(cands, e, rows, cols, s, row);
    } else if e[row][s - row].Some? {
      WaveSkipStep(cands, e, rows, cols, s, row);
    } else if cands(e, row, s - row).Ok? && |cands(e, row, s - row).value| == 1 {
      WaveCommitStep(cands, e, rows, cols, s, row);
    } else if cands(e, row, s - row).Ok? {
      assert Commit(e, []) == e;
    }
  }

  /** The end of a diagonal: the pass goes on from the next one. */
  lemma {:induction false} WaveNextDiagonal(cands: Oracle, e: Explored, rows: nat, cols: nat, s: nat, row: nat)
    requires Sound(cands, rows, cols) && Shaped(e, rows, cols) && WaveStart(cols, s) <= row
    requires s < rows + cols - 1 && row >= WaveEnd(rows, s)
    requires ExploredBefore(e, rows, cols, WaveCursor(s, row))
    ensures WaveOutcome(cands, e, rows, cols, WaveCursor(s, row), Wavefront(cands, e, rows, cols, s, row))
    decreases rows + cols - 1 - s, rows - row, 0
  {
    var w := Wavefront(cands, e, rows, cols, s + 1, WaveStart(cols, s + 1));
    assert Wavefront(cands, e, rows, cols, s, row) == w;
    ExploredPastDiagonal(e, rows, cols, s, row);
    WavefrontOutcome(cands, e, rows, cols, s + 1, WaveStart(cols, s + 1));
    WaveLaterDiagonal(cands, e, rows, cols, s, row, w);
  }

  /** An explored cell: the pass goes on from the next row. */
  lemma {:induction false} WaveSkipStep(cands: Oracle, e: Explored, rows: nat, cols: nat, s: nat, row: nat)
    requires Sound(cands, rows, cols) && Shaped(e, rows, cols) && WaveStart(cols, s) <= row
    requires s < rows + cols - 1 && row < WaveEnd(rows, s) && e[row][s - row].Some?
    requires ExploredBefore(e, rows, cols, WaveCursor(s, row))
    ensures WaveOutcome(cands, e, rows, cols, WaveCursor(s, row), Wavefront(cands, e, rows, cols, s, row))
    decreases rows + cols - 1 - s, rows - row, 0
  {
    var w := Wavefront(cands, e, rows, cols, s, row + 1);
    assert Wavefront(cands, e, rows, cols, s, row) == w;
    assert ExploredBefore(e, rows, cols, WaveCursor(s, row + 1));
    WavefrontOutcome(cands, e, rows, cols, s, row + 1);
    WaveLaterRow(cands, e, rows, cols, s, row, w);
  }

  /** An outcome from the next diagonal's first cell is one from here. */
  lemma WaveLaterDiagonal(cands: Oracle, e: Explored, rows: nat, cols: nat, s: nat, row: nat, w: Wave)
    requires Shaped(e, rows, cols) && row >= WaveEnd(rows, s)
    requires WaveOutcome(cands, e, rows, cols, WaveCursor(s + 1, WaveStart(cols, s + 1)), w)
    ensures WaveOutcome(cands, e, rows, cols, WaveCursor(s, row), w)
  {
  }

  /** An outcome from the next row's cell is one from here. */
  lemma WaveLaterRow(cands: Oracle, e: Explored, rows: nat, cols: nat, s: nat, row: nat, w: Wave)
    requires Shaped(e, rows, cols)
    requires WaveOutcome(cands, e, rows, cols, WaveCursor(s, row + 1), w)
    ensures WaveOutcome(cands, e, rows, cols, WaveCursor(s, row), w)
  {
  }

  /** The commit of a forced cell followed by the rest of the pass. */
  lemma {:induction false} WaveCommitStep(cands: Oracle, e: Explored, rows: nat, cols: nat, s: nat, row: nat)
    requires Sound(cands, rows, cols) && Shaped(e, rows, cols) && WaveStart(cols, s) <= row
    requires s < rows + cols - 1 && row < WaveEnd(rows, s) && e[row][s - row].None?
    requires ExploredBefore(e, rows, cols, WaveCursor(s, row))
    requires cands(e, row, s - row).Ok? && |cands(e, row, s - row).value| == 1
    ensures WaveOutcome(cands, e, rows, cols, WaveCursor(s, row), Wavefront(cands, e, rows, cols, s, row))
    decreases rows + cols - 1 - s, rows - row, 0
  {
    var col := s - row;
    var cs := cands(e, row, col).value;
    var m := Move(cs[0].code, row, col);
    assert CellOf(cs[0]) == (row, col);
    assert cs == [m];
    var e1 := SetCell(e, row, col, Some(m.code));
    var w1 := Wavefront(cands, e1, rows, cols, s, row + 1);
    assert Wavefront(cands, e, rows, cols, s, row) == Preceded(m, w1);
    assert CellOf(m) == (row, col) && cands(e, row, col) == Ok([m]);
    ExploredAfterCommit(e, rows, cols, s, row, m.code);
    WavefrontOutcome(cands, e1, rows, cols, s, row + 1);
    WavePrepend(cands, e, rows, cols, s, row, m, w1);
  }

  /** Once the cursor cell is explored, every cell before the next one is. */
  lemma ExploredAfterCommit(e: Explored, rows: nat, cols: nat, s: nat, row: nat, x: Code)
    requires Shaped(e, rows, cols) && InGrid(rows, cols, row, s - row)
    requires ExploredBefore(e, rows, cols, WaveCursor(s, row))
    ensures ExploredBefore(SetCell(e, row, s - row, Some(x)), rows, cols, WaveCursor(s, row + 1))
  {
  }

  /** Putting the forced move in front of the rest keeps the meaning. */
  lemma WavePrepend(cands: Oracle, e: Explored, rows: nat, cols: nat, s: nat, row: nat, m: Move, w1: Wave)
    requires Shaped(e, rows, cols) && InGrid(rows, cols, row, s - row)
    requires CellOf(m) == WaveCursor(s, row) && cands(e, row, s - row) == Ok([m])
    requires WaveOutcome(cands, SetCell(e, row, s - row, Some(m.code)), rows, cols, WaveCursor(s, row + 1), w1)
    ensures WaveOutcome(cands, e, rows, cols, WaveCursor(s, row), Preceded(m, w1))
  {
    if !w1.Failed? {
      PrependRun(cands, e, rows, cols, s, row, m, w1.prefix);
    }
  }

  /** The forced move in front of a forced run from the next cell. */
  lemma PrependRun(cands: Oracle, e: Explored, rows: nat, cols: nat, s: nat, row: nat, m: Move, p1: seq<Move>)
    requires Shaped(e, rows, cols) && InGrid(rows, cols, row, s - row)
    requires CellOf(m) == WaveCursor(s, row) && cands(e, row, s - row) == Ok([m])
    requires var e1 := SetCell(e, row, s - row, Some(m.code));
      Forced(cands, e1, rows, cols, p1) && MovesFit(p1, e1) && WaveFrom(p1, WaveCursor(s, row + 1))
    ensures Forced(cands, e, rows, cols, [m] + p1) && MovesFit([m] + p1, e)
    ensures WaveFrom([m] + p1, WaveCursor(s, row))
    ensures Commit(e, [m] + p1) == Commit(SetCell(e, row, s - row, Some(m.code)), p1)
  {
    var p := [m] + p1;
    assert p[0] == m && p[1..] == p1;
    PrependOrder(s, row, m, p1);
  }

  /** The move at the cursor comes before every move from the next cell. */
  lemma PrependOrder(s: nat, row: nat, m: Move, p1: seq<Move>)
    requires CellOf(m) == WaveCursor(s, row) && WaveFrom(p1, WaveCursor(s, row + 1))
    ensures WaveFrom([m] + p1, WaveCursor(s, row))
  {
    var p := [m] + p1;
    forall k | 1 <= k < |p| ensures p[k] == p1[k - 1] {
    }
  }

  // ---------------------------------------------------------------------
  // actions
  // ---------------------------------------------------------------------
  /**
   * An action: a batch of moves applied together (a list in the source),
   * or a single move (a tuple, which the Stuck case returns one by one).
   */
  datatype Action = Single(move: Move) | Batch(moves: seq<Move>)

  function MovesOf(a: Action): seq<Move>
  {
    match a
    case Single(m) => [m]
    case Batch(ms) => ms
  }

  /** What `actions` leaves behind: the actions and the board's new flags. */
  datatype Step = Step(actions: seq<Action>, explored: Explored, unique: bool, invalid: bool)

  /** One batch per choice: the forced prefix followed by that choice. */
  function BranchActions(prefix: seq<Move>, choices: seq<Move>): (r: seq<Action>)
    ensures |r| == |choices|
    ensures forall k :: 0 <= k < |r| ==> r[k] == Batch(prefix + [choices[k]])
  {
    seq(|choices|, k requires 0 <= k < |choices| => Batch(prefix + [choices[k]]))
  }

  /** The forced prefix returned as separate single moves. */
  function Singles(ms: seq<Move>): (r: seq<Action>)
    ensures |r| == |ms|
    ensures forall k :: 0 <= k < |r| ==> r[k] == Single(ms[k])
  {
    seq(|ms|, k requires 0 <= k < |ms| => Single(ms[k]))
  }

  /**
   * actions: nothing on an invalid board; while the board is still in its
   * propagation phase, one batch with every forced move of the row-major
   * pass if there is any; otherwise the wavefront's outcome. A wavefront
   * stuck before its first move marks the board invalid. The explored grid
   * keeps the moves committed on the way, as the source's in-place writes
   * do.
   */
  function Actions(cands: Oracle, e: Explored, rows: nat, cols: nat, unique: bool, invalid: bool): (r: Result<Step, Failure>)
    requires Shaped(e, rows, cols)
    ensures r.Ok? ==> Shaped(r.value.explored, rows, cols)
  {
    if invalid then Ok(Step([], e, unique, invalid))
    else
      var pass := if unique then Propagate(cands, e, rows, cols, 0, 0) else Ok([]);
      match pass
      case Err(f) => Err(f)
      case Ok(ms) =>
        if |ms| > 0 then Ok(Step([Batch(ms)], Commit(e, ms), true, false))
        else WaveStep(cands, e, rows, cols)
  }

  /**
   * The shapes a step on a valid board can take once the forced run ms is
   * committed: the propagation phase's single batch; a complete pass's
   * single batch with every cell explored; a branch with one batch per
   * candidate (at least two) of the first cell not forced; or, at a cell
   * with no candidate, the run's moves one by one.
   */
  ghost predicate Settles(cands: Oracle, e: Explored, rows: int, cols: int, st: Step, ms: seq<Move>)
    requires Shaped(e, rows, cols) && MovesFit(ms, e)
  {
    && Forced(cands, e, rows, cols, ms)
    && st.explored == Commit(e, ms)
    && !st.invalid
    && (|| (st.unique && |ms| > 0 && st.actions == [Batch(ms)])
        || (!st.unique && st.actions == [Batch(ms)] && AllExplored(Commit(e, ms), rows, cols))
        || (!st.unique && exists cs: seq<Move> ::
              && |cs| > 1
              && StopsAt(cands, Commit(e, ms), rows, cols, CellOf(cs[0]), cs)
              && st.actions == BranchActions(ms, cs))
        || (!st.unique && |ms| > 0 && st.actions == Singles(ms) &&
              exists c: Cell :: StopsAt(cands, Commit(e, ms), rows, cols, c, [])))
  }

  /** The board turns invalid when the first unexplored cell has no candidate. */
  ghost predicate DeadEnd(cands: Oracle, e: Explored, rows: int, cols: int, st: Step)
    requires Shaped(e, rows, cols)
  {
    && st == Step([], e, false, true)
    && exists c: Cell :: StopsAt(cands, e, rows, cols, c, [])
  }

  /** Every outcome of `actions` on a valid board is a dead end or settles a forced run. */
  lemma {:induction false} ActionsOutcome(cands: Oracle, e: Explored, rows: nat, cols: nat, unique: bool)
    requires Sound(cands, rows, cols) && Shaped(e, rows, cols)
    ensures var r := Actions(cands, e, rows, cols, unique, false);
      r.Ok? ==>
        || DeadEnd(cands, e, rows, cols, r.value)
        || exists ms: seq<Move> :: MovesFit(ms, e) && Settles(cands, e, rows, cols, r.value, ms)
  {
    var r := Actions(cands, e, rows, cols, unique, false);
    var pass := if unique then Propagate(cands, e, rows, cols, 0, 0) else Ok([]);
    if pass.Ok? && |pass.value| > 0 {
      var ms := pass.value;
      assert r == Ok(Step([Batch(ms)], Commit(e, ms), true, false));
      PropagateForces(cands, e, rows, cols, 0, 0);
      assert Settles(cands, e, rows, cols, r.value, ms);
    } else if pass.Ok? {
      assert r == WaveStep(cands, e, rows, cols);
      WaveStepOutcome(cands, e, rows, cols);
    }
  }

  /** The wavefront part of `actions`, once propagation has nothing to commit. */
  function WaveStep(cands: Oracle, e: Explored, rows: nat, cols: nat): (r: Result<Step, Failure>)
    requires Shaped(e, rows, cols)
  {
    match Wavefront(cands, e, rows, cols, 0, WaveStart(cols, 0))
    case Failed(f) => Err(f)
    case Done(p) => Ok(Step([Batch(p)], Commit(e, p), false, false))
    case Branch(p, ch) => Ok(Step(BranchActions(p, ch), Commit(e, p), false, false))
    case Stuck(p, _) =>
      if |p| == 0 then Ok(Step([], e, false, true))
      else Ok(Step(Singles(p), Commit(e, p), false, false))
  }

  lemma WaveStepOutcome(cands: Oracle, e: Explored, rows: nat, cols: nat)
    requires Sound(cands, rows, cols) && Shaped(e, rows, cols)
    ensures var r := WaveStep(cands, e, rows, cols);
      r.Ok? ==>
        || DeadEnd(cands, e, rows, cols, r.value)
        || exists ms: seq<Move> :: MovesFit(ms, e) && Settles(cands, e, rows, cols, r.value, ms)
  {
    var w := Wavefront(cands, e, rows, cols, 0, WaveStart(cols, 0));
    assert ExploredBefore(e, rows, cols, WaveCursor(0, WaveStart(cols, 0)));
    WavefrontOutcome(cands, e, rows, cols, 0, WaveStart(cols, 0));
    var r := WaveStep(cands, e, rows, cols);
    match w
    case Failed(f) =>
    case Done(p) =>
      assert Settles(cands, e, rows, cols, r.value, p);
    case Branch(p, ch) =>
      assert Settles(cands, e, rows, cols, r.value, p);
    case Stuck(p, c) =>
      if |p| == 0 {
        assert Commit(e, p) == e;
        assert DeadEnd(cands, e, rows, cols, r.value);
      } else {
        assert Settles(cands, e, rows, cols, r.value, p);
      }
  }

  /** No actions exactly when the step marks the board invalid. */
  lemma ActionsEmptyIffInvalid(cands: Oracle, e: Explored, rows: nat, cols: nat, unique: bool, invalid: bool)
    requires Sound(cands, rows, cols) && Shaped(e, rows, cols)
    ensures var r := Actions(cands, e, rows, cols, unique, invalid);
      r.Ok? ==> (r.value.actions == [] <==> r.value.invalid)
  {
    if !invalid {
      ActionsOutcome(cands, e, rows, cols, unique);
    }
  }
}
