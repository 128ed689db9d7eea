/**
 * What validateBorders of base/pipe.py does to a board, cell by cell: the
 * straights of the border (corners excepted) are laid along it, and the
 * elbows in the corners are turned to point inside.
 */
module BaseBorders {
  import opened Pieces
  import opened Tables
  import opened Boundary
  import opened Grids
  import opened Dfs

  /** A straight of the top or bottom row, corners excepted: the column loop lays it horizontal. */
  predicate RowFixed(g: Grid, rows: int, cols: int, i: int, j: int)
    requires Shaped(g, rows, cols)
  {
    && InGrid(rows, cols, i, j)
    && (i == 0 || i == rows - 1) && 0 < j < cols - 1
    && FamilyOf(g[i][j]) == Straight
  }

  /** A straight of the left or right column, corners excepted: the row loop lays it vertical. */
  predicate ColumnFixed(g: Grid, rows: int, cols: int, i: int, j: int)
    requires Shaped(g, rows, cols)
  {
    && InGrid(rows, cols, i, j)
    && 0 < i < rows - 1 && (j == 0 || j == cols - 1)
    && FamilyOf(g[i][j]) == Straight
  }

  /** An elbow in a corner. */
  predicate CornerFixed(g: Grid, rows: int, cols: int, i: int, j: int)
    requires Shaped(g, rows, cols)
  {
    InGrid(rows, cols, i, j) && IsCorner(rows, cols, i, j) && FamilyOf(g[i][j]) == Elbow
  }

  /** The cells validateBorders fixes. */
  predicate BorderFixed(g: Grid, rows: int, cols: int, i: int, j: int)
    requires Shaped(g, rows, cols)
  {
    RowFixed(g, rows, cols, i, j) || ColumnFixed(g, rows, cols, i, j) || CornerFixed(g, rows, cols, i, j)
  }

  /**
   * The elbow a corner gets. The four corners are set in the order upper
   * left, upper right, lower left, lower right, so where a cell is two
   * corners at once (a board one row high or one column wide) the later
   * one wins.
   */
  function CornerCode(rows: int, cols: int, i: int, j: int): Code
  {
    if i == rows - 1 && j == cols - 1 then VC
    else if i == rows - 1 && j == 0 then VD
    else if i == 0 && j == cols - 1 then VE
    else VB
  }

  /** The code validateBorders leaves in cell (i, j). */
  function BorderCode(g: Grid, rows: int, cols: int, i: int, j: int): Code
    requires Shaped(g, rows, cols) && InGrid(rows, cols, i, j)
  {
    if CornerFixed(g, rows, cols, i, j) then CornerCode(rows, cols, i, j)
    else if RowFixed(g, rows, cols, i, j) then LH
    else if ColumnFixed(g, rows, cols, i, j) then LV
    else g[i][j]
  }

  /**
   * validateBorders only turns pieces, never changes one it does not fix,
   * and on a board of at least 2 x 2 it fixes exactly those border pieces
   * that have one orientation keeping them inside the board, in that
   * orientation.
   */
  lemma BorderCodeMeaning(g: Grid, rows: int, cols: int, i: int, j: int)
    requires Shaped(g, rows, cols) && InGrid(rows, cols, i, j)
    ensures FamilyOf(BorderCode(g, rows, cols, i, j)) == FamilyOf(g[i][j])
    ensures !BorderFixed(g, rows, cols, i, j) ==> BorderCode(g, rows, cols, i, j) == g[i][j]
    ensures rows >= 2 && cols >= 2 && BorderFixed(g, rows, cols, i, j) ==>
      forall x :: FamilyOf(x) == FamilyOf(g[i][j]) && PointsInside(x, rows, cols, i, j) <==>
        x == BorderCode(g, rows, cols, i, j)
  {
    if rows >= 2 && cols >= 2 && BorderFixed(g, rows, cols, i, j) {
      forall x ensures FamilyOf(x) == FamilyOf(g[i][j]) && PointsInside(x, rows, cols, i, j) <==>
        x == BorderCode(g, rows, cols, i, j)
      {
        CodeCases(x);
      }
    }
  }

  /** The whole board after validateBorders. */
  function BorderGrid(g: Grid, rows: int, cols: int): (h: Grid)
    requires Shaped(g, rows, cols) && cols >= 0
    ensures Shaped(h, rows, cols)
    ensures forall i, j :: InGrid(rows, cols, i, j) ==> h[i][j] == BorderCode(g, rows, cols, i, j)
  {
    seq(rows, i requires 0 <= i < rows =>
      seq(cols, j requires 0 <= j < cols => BorderCode(g, rows, cols, i, j)))
  }

  /**
   * validateBorders a second time changes nothing: the cells it fixes are
   * the same, and they already hold their codes.
   */
  lemma BorderGridIdempotent(g: Grid, rows: int, cols: int)
    requires Shaped(g, rows, cols) && cols >= 0
    ensures var h := BorderGrid(g, rows, cols);
      && BorderGrid(h, rows, cols) == h
      && forall i, j :: BorderFixed(h, rows, cols, i, j) <==> BorderFixed(g, rows, cols, i, j)
  {
    var h := BorderGrid(g, rows, cols);
    forall i, j | InGrid(rows, cols, i, j)
      ensures BorderFixed(h, rows, cols, i, j) == BorderFixed(g, rows, cols, i, j)
      ensures BorderCode(h, rows, cols, i, j) == h[i][j]
    {
      BorderCodeMeaning(g, rows, cols, i, j);
    }
    SameGrid(BorderGrid(h, rows, cols), h, rows, cols);
  }

  // ---------------------------------------------------------------------
  // The steps of validateBorders, in the order the method takes them
  // ---------------------------------------------------------------------

  /**
   * b grows a: the cells of a stay first in b, in their places, and b
   * lists no cell twice when a does not.
   */
  predicate Grown(a: seq<Cell>, b: seq<Cell>)
  {
    && |a| <= |b|
    && (forall k :: 0 <= k < |a| ==> b[k] == a[k])
    && (Distinct(a) ==> Distinct(b))
  }

  /** Turn the piece at (i, j) to code and validate the cell. */
  function Turned(g: Grid, vp: seq<Cell>, i: int, j: int, code: Code): (r: (Grid, seq<Cell>))
    requires 0 <= i < |g| && 0 <= j < |g[i]|
  {
    (SetCell(g, i, j, code), Validated(vp, (i, j)))
  }

  /** Turned changes the one cell and lists it. */
  lemma TurnedMeaning(g: Grid, vp: seq<Cell>, rows: int, cols: int, i: int, j: int, code: Code)
    requires Shaped(g, rows, cols) && InGrid(rows, cols, i, j)
    ensures var r := Turned(g, vp, i, j, code);
      && Shaped(r.0, rows, cols)
      && (forall a, b :: InGrid(rows, cols, a, b) ==> r.0[a][b] == if (a, b) == (i, j) then code else g[a][b])
      && (forall x :: x in r.1 <==> x in vp || x == (i, j))
      && Grown(vp, r.1)
  {
    SetCellMeaning(g, rows, cols, i, j, code);
    ValidatedMeaning(vp, (i, j));
  }

  /** The column loop at column c: a straight at the top, then one at the bottom, laid horizontal. */
  function RowStep(g: Grid, vp: seq<Cell>, rows: int, cols: int, c: int): (r: (Grid, seq<Cell>))
    requires Shaped(g, rows, cols) && rows > 0 && 0 < c < cols - 1
    ensures Shaped(r.0, rows, cols)
  {
    var s := if FamilyOf(g[0][c]) == Straight then Turned(g, vp, 0, c, LH) else (g, vp);
    if FamilyOf(s.0[rows - 1][c]) == Straight then Turned(s.0, s.1, rows - 1, c, LH) else s
  }

  /** The column loop of validateBorders from column c on. */
  function RowsLoop(g: Grid, vp: seq<Cell>, rows: int, cols: int, c: int): (r: (Grid, seq<Cell>))
    requires Shaped(g, rows, cols) && rows > 0 && c > 0
    ensures Shaped(r.0, rows, cols)
    decreases cols - c
  {
    if c >= cols - 1 then (g, vp)
    else
      var s := RowStep(g, vp, rows, cols, c);
      RowsLoop(s.0, s.1, rows, cols, c + 1)
  }

  /** The row loop at row r: a straight at the left, then one at the right, laid vertical. */
  function ColumnStep(g: Grid, vp: seq<Cell>, rows: int, cols: int, r: int): (t: (Grid, seq<Cell>))
    requires Shaped(g, rows, cols) && cols > 0 && 0 < r < rows - 1
    ensures Shaped(t.0, rows, cols)
  {
    var s := if FamilyOf(g[r][0]) == Straight then Turned(g, vp, r, 0, LV) else (g, vp);
    if FamilyOf(s.0[r][cols - 1]) == Straight then Turned(s.0, s.1, r, cols - 1, LV) else s
  }

  /** The row loop of validateBorders from row r on. */
  function ColumnsLoop(g: Grid, vp: seq<Cell>, rows: int, cols: int, r: int): (t: (Grid, seq<Cell>))
    requires Shaped(g, rows, cols) && cols > 0 && r > 0
    ensures Shaped(t.0, rows, cols)
    decreases rows - r
  {
    if r >= rows - 1 then (g, vp)
    else
      var s := ColumnStep(g, vp, rows, cols, r);
      ColumnsLoop(s.0, s.1, rows, cols, r + 1)
  }

  /** A corner step: an elbow at (i, j) is turned to code and validated. */
  function CornerStep(g: Grid, vp: seq<Cell>, rows: int, cols: int, i: int, j: int, code: Code): (r: (Grid, seq<Cell>))
    requires Shaped(g, rows, cols) && InGrid(rows, cols, i, j)
    ensures Shaped(r.0, rows, cols)
  {
    if FamilyOf(g[i][j]) == Elbow then Turned(g, vp, i, j, code) else (g, vp)
  }

  /** The four corner steps: upper left, upper right, lower left, lower right. */
  function Corners(g: Grid, vp: seq<Cell>, rows: int, cols: int): (r: (Grid, seq<Cell>))
    requires Shaped(g, rows, cols) && rows > 0 && cols > 0
    ensures Shaped(r.0, rows, cols)
  {
    var s1 := CornerStep(g, vp, rows, cols, 0, 0, VB);
    var s2 := CornerStep(s1.0, s1.1, rows, cols, 0, cols - 1, VE);
    var s3 := CornerStep(s2.0, s2.1, rows, cols, rows - 1, 0, VD);
    CornerStep(s3.0, s3.1, rows, cols, rows - 1, cols - 1, VC)
  }

  /** validateBorders: the column loop, the row loop, then the corners. */
  function Borders(g: Grid, vp: seq<Cell>, rows: int, cols: int): (r: (Grid, seq<Cell>))
    requires Shaped(g, rows, cols) && rows > 0 && cols > 0
    ensures Shaped(r.0, rows, cols)
  {
    var s1 := RowsLoop(g, vp, rows, cols, 1);
    var s2 := ColumnsLoop(s1.0, s1.1, rows, cols, 1);
    Corners(s2.0, s2.1, rows, cols)
  }

  // ---------------------------------------------------------------------
  // What each step does, cell by cell
  // ---------------------------------------------------------------------

  /** Growing is transitive. */
  lemma GrownTrans(a: seq<Cell>, b: seq<Cell>, c: seq<Cell>)
    requires Grown(a, b) && Grown(b, c)
    ensures Grown(a, c)
  {
  }

  lemma RowStepMeaning(g: Grid, vp: seq<Cell>, rows: int, cols: int, c: int)
    requires Shaped(g, rows, cols) && rows > 0 && 0 < c < cols - 1
    ensures var r := RowStep(g, vp, rows, cols, c);
      && (forall i, j :: InGrid(rows, cols, i, j) ==>
            r.0[i][j] == if RowFixed(g, rows, cols, i, j) && j == c then LH else g[i][j])
      && (forall x :: x in r.1 <==> x in vp || (RowFixed(g, rows, cols, x.0, x.1) && x.1 == c))
      && Grown(vp, r.1)
  {
    var s := if FamilyOf(g[0][c]) == Straight then Turned(g, vp, 0, c, LH) else (g, vp);
    if FamilyOf(g[0][c]) == Straight {
      TurnedMeaning(g, vp, rows, cols, 0, c, LH);
    }
    if FamilyOf(s.0[rows - 1][c]) == Straight {
      TurnedMeaning(s.0, s.1, rows, cols, rows - 1, c, LH);
    }
  }

  /**
   * The column loop from column c on lays horizontal every straight of
   * the top and bottom rows from column c to the last but one, fixes
   * those cells, and changes nothing else.
   */
  lemma {:induction false} RowsLoopMeaning(g: Grid, vp: seq<Cell>, rows: int, cols: int, c: int)
    requires Shaped(g, rows, cols) && rows > 0 && c > 0
    ensures var r := RowsLoop(g, vp, rows, cols, c);
      && (forall i, j :: InGrid(rows, cols, i, j) ==>
            r.0[i][j] == if RowFixed(g, rows, cols, i, j) && j >= c then LH else g[i][j])
      && (forall x :: x in r.1 <==> x in vp || (RowFixed(g, rows, cols, x.0, x.1) && x.1 >= c))
      && Grown(vp, r.1)
    decreases cols - c
  {
    if c < cols - 1 {
      var s := RowStep(g, vp, rows, cols, c);
      RowStepMeaning(g, vp, rows, cols, c);
      RowsLoopMeaning(s.0, s.1, rows, cols, c + 1);
      assert forall i, j :: InGrid(rows, cols, i, j) ==> RowFixed(s.0, rows, cols, i, j) == RowFixed(g, rows, cols, i, j);
      GrownTrans(vp, s.1, RowsLoop(g, vp, rows, cols, c).1);
    }
  }

  lemma ColumnStepMeaning(g: Grid, vp: seq<Cell>, rows: int, cols: int, r: int)
    requires Shaped(g, rows, cols) && cols > 0 && 0 < r < rows - 1
    ensures var t := ColumnStep(g, vp, rows, cols, r);
      && (forall i, j :: InGrid(rows, cols, i, j) ==>
            t.0[i][j] == if ColumnFixed(g, rows, cols, i, j) && i == r then LV else g[i][j])
      && (forall x :: x in t.1 <==> x in vp || (ColumnFixed(g, rows, cols, x.0, x.1) && x.0 == r))
      && Grown(vp, t.1)
  {
    var s := if FamilyOf(g[r][0]) == Straight then Turned(g, vp, r, 0, LV) else (g, vp);
    if FamilyOf(g[r][0]) == Straight {
      TurnedMeaning(g, vp, rows, cols, r, 0, LV);
    }
    if FamilyOf(s.0[r][cols - 1]) == Straight {
      TurnedMeaning(s.0, s.1, rows, cols, r, cols - 1, LV);
    }
  }

  /**
   * The row loop from row r on lays vertical every straight of the left
   * and right columns from row r to the last but one, fixes those cells,
   * and changes nothing else.
   */
  lemma {:induction false} ColumnsLoopMeaning(g: Grid, vp: seq<Cell>, rows: int, cols: int, r: int)
    requires Shaped(g, rows, cols) && cols > 0 && r > 0
    ensures var t := ColumnsLoop(g, vp, rows, cols, r);
      && (forall i, j :: InGrid(rows, cols, i, j) ==>
            t.0[i][j] == if ColumnFixed(g, rows, cols, i, j) && i >= r then LV else g[i][j])
      && (forall x :: x in t.1 <==> x in vp || (ColumnFixed(g, rows, cols, x.0, x.1) && x.0 >= r))
      && Grown(vp, t.1)
    decreases rows - r
  {
    if r < rows - 1 {
      var s := ColumnStep(g, vp, rows, cols, r);
      ColumnStepMeaning(g, vp, rows, cols, r);
      ColumnsLoopMeaning(s.0, s.1, rows, cols, r + 1);
      assert forall i, j :: InGrid(rows, cols, i, j) ==> ColumnFixed(s.0, rows, cols, i, j) == ColumnFixed(g, rows, cols, i, j);
      GrownTrans(vp, s.1, ColumnsLoop(g, vp, rows, cols, r).1);
    }
  }

  /** One corner step, seen at cell (a, b): only an elbow at the corner is turned. */
  lemma CornerStepAt(g: Grid, vp: seq<Cell>, rows: int, cols: int, i: int, j: int, code: Code, a: int, b: int)
    requires Shaped(g, rows, cols) && InGrid(rows, cols, i, j) && InGrid(rows, cols, a, b)
    ensures CornerStep(g, vp, rows, cols, i, j, code).0[a][b] ==
      if (a, b) == (i, j) && FamilyOf(g[i][j]) == Elbow then code else g[a][b]
  {
    if FamilyOf(g[i][j]) == Elbow {
      TurnedMeaning(g, vp, rows, cols, i, j, code);
    }
  }

  /** One corner step lists the corner exactly when it holds an elbow. */
  lemma CornerStepListed(g: Grid, vp: seq<Cell>, rows: int, cols: int, i: int, j: int, code: Code)
    requires Shaped(g, rows, cols) && InGrid(rows, cols, i, j)
    ensures var r := CornerStep(g, vp, rows, cols, i, j, code);
      && (forall x :: x in r.1 <==> x in vp || (x == (i, j) && FamilyOf(g[i][j]) == Elbow))
      && Grown(vp, r.1)
  {
    if FamilyOf(g[i][j]) == Elbow {
      TurnedMeaning(g, vp, rows, cols, i, j, code);
    }
  }

  /**
   * The corner steps turn each elbow in a corner to the code of the last
   * corner it is, fix those cells, and change nothing else.
   */
  lemma CornersMeaning(g: Grid, vp: seq<Cell>, rows: int, cols: int)
    requires Shaped(g, rows, cols) && rows > 0 && cols > 0
    ensures var r := Corners(g, vp, rows, cols);
      && (forall i, j :: InGrid(rows, cols, i, j) ==>
            r.0[i][j] == if CornerFixed(g, rows, cols, i, j) then CornerCode(rows, cols, i, j) else g[i][j])
      && (forall x :: x in r.1 <==> x in vp || CornerFixed(g, rows, cols, x.0, x.1))
      && Grown(vp, r.1)
  {
    var r := Corners(g, vp, rows, cols);
    forall i, j | InGrid(rows, cols, i, j)
      ensures r.0[i][j] == if CornerFixed(g, rows, cols, i, j) then CornerCode(rows, cols, i, j) else g[i][j]
    {
      CornerAt(g, vp, rows, cols, i, j);
    }
    forall x ensures x in r.1 <==> x in vp || CornerFixed(g, rows, cols, x.0, x.1) {
      CornerListedAt(g, vp, rows, cols, x);
    }
    CornersGrown(g, vp, rows, cols);
  }

  /** The first three corner steps keep the family of the corners after them. */
  lemma CornerFamilies(g: Grid, vp: seq<Cell>, rows: int, cols: int)
    requires Shaped(g, rows, cols) && rows > 0 && cols > 0
    ensures var s1 := CornerStep(g, vp, rows, cols, 0, 0, VB);
      var s2 := CornerStep(s1.0, s1.1, rows, cols, 0, cols - 1, VE);
      var s3 := CornerStep(s2.0, s2.1, rows, cols, rows - 1, 0, VD);
      && FamilyOf(s1.0[0][cols - 1]) == FamilyOf(g[0][cols - 1])
      && FamilyOf(s2.0[rows - 1][0]) == FamilyOf(g[rows - 1][0])
      && FamilyOf(s3.0[rows - 1][cols - 1]) == FamilyOf(g[rows - 1][cols - 1])
  {
    var s1 := CornerStep(g, vp, rows, cols, 0, 0, VB);
    var s2 := CornerStep(s1.0, s1.1, rows, cols, 0, cols - 1, VE);
    CornerStepAt(g, vp, rows, cols, 0, 0, VB, 0, cols - 1);
    CornerStepAt(g, vp, rows, cols, 0, 0, VB, rows - 1, 0);
    CornerStepAt(g, vp, rows, cols, 0, 0, VB, rows - 1, cols - 1);
    CornerStepAt(s1.0, s1.1, rows, cols, 0, cols - 1, VE, rows - 1, 0);
    CornerStepAt(s1.0, s1.1, rows, cols, 0, cols - 1, VE, rows - 1, cols - 1);
    CornerStepAt(s2.0, s2.1, rows, cols, rows - 1, 0, VD, rows - 1, cols - 1);
  }

  /** One cell of the board after the corner steps. */
  lemma CornerAt(g: Grid, vp: seq<Cell>, rows: int, cols: int, i: int, j: int)
    requires Shaped(g, rows, cols) && InGrid(rows, cols, i, j)
    ensures Corners(g, vp, rows, cols).0[i][j] ==
      if CornerFixed(g, rows, cols, i, j) then CornerCode(rows, cols, i, j) else g[i][j]
  {
    var s1 := CornerStep(g, vp, rows, cols, 0, 0, VB);
    var s2 := CornerStep(s1.0, s1.1, rows, cols, 0, cols - 1, VE);
    var s3 := CornerStep(s2.0, s2.1, rows, cols, rows - 1, 0, VD);
    var s4 := CornerStep(s3.0, s3.1, rows, cols, rows - 1, cols - 1, VC);
    CornerFamilies(g, vp, rows, cols);
    CornerStepAt(g, vp, rows, cols, 0, 0, VB, i, j);
    CornerStepAt(s1.0, s1.1, rows, cols, 0, cols - 1, VE, i, j);
    CornerStepAt(s2.0, s2.1, rows, cols, rows - 1, 0, VD, i, j);
    CornerStepAt(s3.0, s3.1, rows, cols, rows - 1, cols - 1, VC, i, j);
    CornerCell(g, s1.0, s2.0, s3.0, s4.0, rows, cols, i, j);
  }

  /** A cell is listed after the corner steps exactly when it was, or is a corner elbow. */
  lemma CornerListedAt(g: Grid, vp: seq<Cell>, rows: int, cols: int, x: Cell)
    requires Shaped(g, rows, cols) && rows > 0 && cols > 0
    ensures x in Corners(g, vp, rows, cols).1 <==> x in vp || CornerFixed(g, rows, cols, x.0, x.1)
  {
    var s1 := CornerStep(g, vp, rows, cols, 0, 0, VB);
    var s2 := CornerStep(s1.0, s1.1, rows, cols, 0, cols - 1, VE);
    var s3 := CornerStep(s2.0, s2.1, rows, cols, rows - 1, 0, VD);
    CornerFamilies(g, vp, rows, cols);
    CornerStepHas(g, vp, rows, cols, 0, 0, VB, x);
    CornerStepHas(s1.0, s1.1, rows, cols, 0, cols - 1, VE, x);
    CornerStepHas(s2.0, s2.1, rows, cols, rows - 1, 0, VD, x);
    CornerStepHas(s3.0, s3.1, rows, cols, rows - 1, cols - 1, VC, x);
  }

  /** One corner step, seen at cell x of the list. */
  lemma CornerStepHas(g: Grid, vp: seq<Cell>, rows: int, cols: int, i: int, j: int, code: Code, x: Cell)
    requires Shaped(g, rows, cols) && InGrid(rows, cols, i, j)
    ensures x in CornerStep(g, vp, rows, cols, i, j, code).1 <==>
      x in vp || (x == (i, j) && FamilyOf(g[i][j]) == Elbow)
  {
    CornerStepListed(g, vp, rows, cols, i, j, code);
  }

  /** The corner steps only add to the list. */
  lemma CornersGrown(g: Grid, vp: seq<Cell>, rows: int, cols: int)
    requires Shaped(g, rows, cols) && rows > 0 && cols > 0
    ensures Grown(vp, Corners(g, vp, rows, cols).1)
  {
    var s1 := CornerStep(g, vp, rows, cols, 0, 0, VB);
    var s2 := CornerStep(s1.0, s1.1, rows, cols, 0, cols - 1, VE);
    var s3 := CornerStep(s2.0, s2.1, rows, cols, rows - 1, 0, VD);
    var s4 := CornerStep(s3.0, s3.1, rows, cols, rows - 1, cols - 1, VC);
    CornerStepListed(g, vp, rows, cols, 0, 0, VB);
    CornerStepListed(s1.0, s1.1, rows, cols, 0, cols - 1, VE);
    CornerStepListed(s2.0, s2.1, rows, cols, rows - 1, 0, VD);
    CornerStepListed(s3.0, s3.1, rows, cols, rows - 1, cols - 1, VC);
    GrownTrans(vp, s1.1, s2.1);
    GrownTrans(vp, s2.1, s3.1);
    GrownTrans(vp, s3.1, s4.1);
  }

  /** One cell through the four corner steps. */
  lemma CornerCell(g: Grid, g1: Grid, g2: Grid, g3: Grid, g4: Grid, rows: int, cols: int, i: int, j: int)
    requires Shaped(g, rows, cols) && Shaped(g1, rows, cols) && Shaped(g2, rows, cols)
    requires Shaped(g3, rows, cols) && Shaped(g4, rows, cols) && InGrid(rows, cols, i, j)
    requires FamilyOf(g1[0][cols - 1]) == FamilyOf(g[0][cols - 1])
    requires FamilyOf(g2[rows - 1][0]) == FamilyOf(g[rows - 1][0])
    requires FamilyOf(g3[rows - 1][cols - 1]) == FamilyOf(g[rows - 1][cols - 1])
    requires g1[i][j] == if (i, j) == (0, 0) && FamilyOf(g[0][0]) == Elbow then VB else g[i][j]
    requires g2[i][j] == if (i, j) == (0, cols - 1) && FamilyOf(g1[0][cols - 1]) == Elbow then VE else g1[i][j]
    requires g3[i][j] == if (i, j) == (rows - 1, 0) && FamilyOf(g2[rows - 1][0]) == Elbow then VD else g2[i][j]
    requires g4[i][j] == if (i, j) == (rows - 1, cols - 1) && FamilyOf(g3[rows - 1][cols - 1]) == Elbow then VC else g3[i][j]
    ensures g4[i][j] == if CornerFixed(g, rows, cols, i, j) then CornerCode(rows, cols, i, j) else g[i][j]
    ensures CornerFixed(g, rows, cols, i, j) <==>
      || ((i, j) == (0, 0) && FamilyOf(g[0][0]) == Elbow)
      || ((i, j) == (0, cols - 1) && FamilyOf(g1[0][cols - 1]) == Elbow)
      || ((i, j) == (rows - 1, 0) && FamilyOf(g2[rows - 1][0]) == Elbow)
      || ((i, j) == (rows - 1, cols - 1) && FamilyOf(g3[rows - 1][cols - 1]) == Elbow)
  {
  }

  /**
   * validateBorders leaves the board BorderGrid describes, fixes exactly
   * the cells listed before and the border cells it turns, and keeps the
   * list's earlier entries in place without listing a cell twice.
   */
  lemma BordersMeaning(g: Grid, vp: seq<Cell>, rows: int, cols: int)
    requires Shaped(g, rows, cols) && rows > 0 && cols > 0
    ensures var r := Borders(g, vp, rows, cols);
      && r.0 == BorderGrid(g, rows, cols)
      && (forall x :: x in r.1 <==> x in vp || BorderFixed(g, rows, cols, x.0, x.1))
      && Grown(vp, r.1)
  {
    var s1 := RowsLoop(g, vp, rows, cols, 1);
    var s2 := ColumnsLoop(s1.0, s1.1, rows, cols, 1);
    var s3 := Corners(s2.0, s2.1, rows, cols);
    forall i, j | InGrid(rows, cols, i, j) ensures s3.0[i][j] == BorderGrid(g, rows, cols)[i][j] {
      BordersAt(g, vp, rows, cols, i, j);
    }
    SameGrid(s3.0, BorderGrid(g, rows, cols), rows, cols);
    forall x ensures x in s3.1 <==> x in vp || BorderFixed(g, rows, cols, x.0, x.1) {
      BordersListedAt(g, vp, rows, cols, x);
    }
    RowsLoopMeaning(g, vp, rows, cols, 1);
    ColumnsLoopMeaning(s1.0, s1.1, rows, cols, 1);
    CornersGrown(s2.0, s2.1, rows, cols);
    GrownTrans(vp, s1.1, s2.1);
    GrownTrans(vp, s2.1, s3.1);
  }

  /** The three phases of validateBorders, seen at one cell. */
  lemma BordersAt(g: Grid, vp: seq<Cell>, rows: int, cols: int, i: int, j: int)
    requires Shaped(g, rows, cols) && InGrid(rows, cols, i, j)
    ensures Borders(g, vp, rows, cols).0[i][j] == BorderGrid(g, rows, cols)[i][j]
  {
    var s1 := RowsLoop(g, vp, rows, cols, 1);
    var s2 := ColumnsLoop(s1.0, s1.1, rows, cols, 1);
    RowsLoopAt(g, vp, rows, cols, (i, j));
    ColumnsLoopAt(s1.0, s1.1, rows, cols, (i, j));
    CornerAt(s2.0, s2.1, rows, cols, i, j);
    assert ColumnFixed(s1.0, rows, cols, i, j) == ColumnFixed(g, rows, cols, i, j);
    assert CornerFixed(s2.0, rows, cols, i, j) == CornerFixed(g, rows, cols, i, j);
  }

  /** The cells listed after validateBorders, one at a time. */
  lemma BordersListedAt(g: Grid, vp: seq<Cell>, rows: int, cols: int, x: Cell)
    requires Shaped(g, rows, cols) && rows > 0 && cols > 0
    ensures x in Borders(g, vp, rows, cols).1 <==> x in vp || BorderFixed(g, rows, cols, x.0, x.1)
  {
    var s1 := RowsLoop(g, vp, rows, cols, 1);
    var s2 := ColumnsLoop(s1.0, s1.1, rows, cols, 1);
    RowsLoopAt(g, vp, rows, cols, x);
    ColumnsLoopAt(s1.0, s1.1, rows, cols, x);
    CornerListedAt(s2.0, s2.1, rows, cols, x);
    if InGrid(rows, cols, x.0, x.1) {
      assert ColumnFixed(s1.0, rows, cols, x.0, x.1) == ColumnFixed(g, rows, cols, x.0, x.1);
      assert CornerFixed(s2.0, rows, cols, x.0, x.1) == CornerFixed(g, rows, cols, x.0, x.1);
    }
  }

  /** The column loop of validateBorders, seen at cell x. */
  lemma RowsLoopAt(g: Grid, vp: seq<Cell>, rows: int, cols: int, x: Cell)
    requires Shaped(g, rows, cols) && rows > 0
    ensures var r := RowsLoop(g, vp, rows, cols, 1);
      && (InGrid(rows, cols, x.0, x.1) ==>
            r.0[x.0][x.1] == if RowFixed(g, rows, cols, x.0, x.1) then LH else g[x.0][x.1])
      && (x in r.1 <==> x in vp || RowFixed(g, rows, cols, x.0, x.1))
  {
    RowsLoopMeaning(g, vp, rows, cols, 1);
  }

  /** The row loop of validateBorders, seen at cell x. */
  lemma ColumnsLoopAt(g: Grid, vp: seq<Cell>, rows: int, cols: int, x: Cell)
    requires Shaped(g, rows, cols) && cols > 0
    ensures var r := ColumnsLoop(g, vp, rows, cols, 1);
      && (InGrid(rows, cols, x.0, x.1) ==>
            r.0[x.0][x.1] == if ColumnFixed(g, rows, cols, x.0, x.1) then LV else g[x.0][x.1])
      && (x in r.1 <==> x in vp || ColumnFixed(g, rows, cols, x.0, x.1))
  {
    ColumnsLoopMeaning(g, vp, rows, cols, 1);
  }
}
