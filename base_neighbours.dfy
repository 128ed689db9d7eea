/**
 * get_valid_rotations_neighbors of base/pipe.py: the tables of the fixed
 * neighbours, collected in order, and the double loop over the first of
 * them that keeps each code once per list that holds it.
 */
module BaseNeighbours {
  import opened Wrappers
  import opened Pieces
  import opened Tables
  import opened BaseTables
  import opened Grids
  import opened Candidates
  import opened Traversal

  // ---------------------------------------------------------------------
  // get_valid_rotations_neighbors
  // ---------------------------------------------------------------------

  /** The neighbour toward d is a cell of the grid listed in valid_positions. */
  predicate FixedSide(vp: seq<Cell>, rows: int, cols: int, row: int, col: int, d: Dir)
  {
    var c := Toward((row, col), d);
    InGrid(rows, cols, c.0, c.1) && c in vp
  }

  /**
   * The table of the neighbour toward d, looked up with the tables of
   * base/pipe.py itself (its left and right tables as written); only the
   * lower table can be None.
   */
  function SideTable(g: Grid, rows: int, cols: int, row: int, col: int, d: Dir): (t: Option<seq<Code>>)
    requires Shaped(g, rows, cols) && InGrid(rows, cols, row, col)
    requires InGrid(rows, cols, Toward((row, col), d).0, Toward((row, col), d).1)
    ensures t.None? <==> d == Down && FamilyOf(g[row][col]) == Terminal && g[row + 1][col] == FC
    ensures t.Some? ==> forall x :: x in t.value ==> FamilyOf(x) == FamilyOf(g[row][col])
  {
    var p := g[row][col];
    var c := Toward((row, col), d);
    var n := g[c.0][c.1];
    match d
    case Up => Some(UpperNeighbourActions(p, n))
    case Down => LowerNeighbourActions(p, n)
    case Left => Some(LeftActionsAsWritten(p, n))
    case Right => Some(RightActionsAsWritten(p, n))
  }

  /**
   * The lookups the draft itself makes: a BC right of a fixed VD is offered
   * only BD, and a terminal left of a fixed LV is offered nothing.
   */
  lemma SideTableAsWritten()
    ensures Shaped([[VD, BC]], 1, 2) && Shaped([[FC, LV]], 1, 2)
    ensures SideTable([[VD, BC]], 1, 2, 0, 1, Left) == Some([BD])
    ensures SideTable([[FC, LV]], 1, 2, 0, 0, Right) == Some([])
  {
    LeftTableMissesElbows();
    RightTableEmptiesTerminals();
  }

  /** One append of the collection: the side's table when that neighbour is fixed. */
  function Side(g: Grid, vp: seq<Cell>, rows: int, cols: int, row: int, col: int, d: Dir)
    : (s: seq<Option<seq<Code>>>)
    requires Shaped(g, rows, cols) && InGrid(rows, cols, row, col)
    ensures |s| == if FixedSide(vp, rows, cols, row, col, d) then 1 else 0
  {
    if FixedSide(vp, rows, cols, row, col, d) then [SideTable(g, rows, cols, row, col, d)] else []
  }

  /**
   * The lists get_valid_rotations_neighbors collects before intersecting:
   * one table per fixed neighbour, in the order up, down, left, right.
   */
  function NeighbourLists(g: Grid, vp: seq<Cell>, rows: int, cols: int, row: int, col: int)
    : (ls: seq<Option<seq<Code>>>)
    requires Shaped(g, rows, cols) && InGrid(rows, cols, row, col)
    ensures |ls| <= 4
    ensures |ls| == 0 <==>
      !FixedSide(vp, rows, cols, row, col, Up) && !FixedSide(vp, rows, cols, row, col, Down) &&
      !FixedSide(vp, rows, cols, row, col, Left) && !FixedSide(vp, rows, cols, row, col, Right)
  {
    Side(g, vp, rows, cols, row, col, Up) + Side(g, vp, rows, cols, row, col, Down) +
    Side(g, vp, rows, cols, row, col, Left) + Side(g, vp, rows, cols, row, col, Right)
  }

  /** The side whose table is entry k of the collected lists. */
  function EntryDir(vp: seq<Cell>, rows: int, cols: int, row: int, col: int, k: int): Dir
  {
    var u := if FixedSide(vp, rows, cols, row, col, Up) then 1 else 0;
    var d := if FixedSide(vp, rows, cols, row, col, Down) then 1 else 0;
    var l := if FixedSide(vp, rows, cols, row, col, Left) then 1 else 0;
    if k < u then Up else if k < u + d then Down else if k < u + d + l then Left else Right
  }

  /** Entry k of the collected lists is the table of a fixed side. */
  lemma EntryTable(g: Grid, vp: seq<Cell>, rows: int, cols: int, row: int, col: int, k: int)
    requires Shaped(g, rows, cols) && InGrid(rows, cols, row, col)
    requires 0 <= k < |NeighbourLists(g, vp, rows, cols, row, col)|
    ensures FixedSide(vp, rows, cols, row, col, EntryDir(vp, rows, cols, row, col, k))
    ensures NeighbourLists(g, vp, rows, cols, row, col)[k] ==
      SideTable(g, rows, cols, row, col, EntryDir(vp, rows, cols, row, col, k))
  {
    var up := Side(g, vp, rows, cols, row, col, Up);
    var down := Side(g, vp, rows, cols, row, col, Down);
    var left := Side(g, vp, rows, cols, row, col, Left);
    var right := Side(g, vp, rows, cols, row, col, Right);
    var ls := NeighbourLists(g, vp, rows, cols, row, col);
    assert ls == up + down + left + right;
    if k < |up| { assert ls[k] == up[k]; }
    else if k < |up| + |down| { assert ls[k] == down[k - |up|]; }
    else if k < |up| + |down| + |left| { assert ls[k] == left[k - |up| - |down|]; }
    else { assert ls[k] == right[k - |up| - |down| - |left|]; }
  }

  /**
   * Every collected list holds orientations of the piece only; a None
   * is collected exactly for a terminal above a fixed FC; and the first
   * list is the upper table whenever the upper neighbour is fixed.
   */
  lemma NeighbourListsMeaning(g: Grid, vp: seq<Cell>, rows: int, cols: int, row: int, col: int)
    requires Shaped(g, rows, cols) && InGrid(rows, cols, row, col)
    ensures var ls := NeighbourLists(g, vp, rows, cols, row, col);
      && (forall k :: 0 <= k < |ls| && ls[k].Some? ==>
            forall x :: x in ls[k].value ==> FamilyOf(x) == FamilyOf(g[row][col]))
      && ((exists k :: 0 <= k < |ls| && ls[k].None?) <==>
            FamilyOf(g[row][col]) == Terminal && FixedSide(vp, rows, cols, row, col, Down) && g[row + 1][col] == FC)
      && (FixedSide(vp, rows, cols, row, col, Up) ==>
            ls[0] == Some(UpperNeighbourActions(g[row][col], g[row - 1][col])))
  {
    var ls := NeighbourLists(g, vp, rows, cols, row, col);
    forall k | 0 <= k < |ls|
      ensures ls[k] == SideTable(g, rows, cols, row, col, EntryDir(vp, rows, cols, row, col, k))
    {
      EntryTable(g, vp, rows, cols, row, col, k);
    }
    if FamilyOf(g[row][col]) == Terminal && FixedSide(vp, rows, cols, row, col, Down) && g[row + 1][col] == FC {
      var k := if FixedSide(vp, rows, cols, row, col, Up) then 1 else 0;
      EntryTable(g, vp, rows, cols, row, col, k);
    }
    if FixedSide(vp, rows, cols, row, col, Up) {
      EntryTable(g, vp, rows, cols, row, col, 0);
    }
  }
}
