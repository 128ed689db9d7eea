/**
 * Position predicates (is_corner_*, is_edge_*) and get_valid_rotations_pos,
 * which picks the boundary table that applies to a cell.
 */
module Boundary {
  import opened Wrappers
  import opened Pieces
  import opened Tables

  predicate IsCornerUpperRight(rows: int, cols: int, row: int, col: int) { row == 0 && col == cols - 1 }
  predicate IsCornerUpperLeft(rows: int, cols: int, row: int, col: int) { row == 0 && col == 0 }
  predicate IsCornerLowerRight(rows: int, cols: int, row: int, col: int) { row == rows - 1 && col == cols - 1 }
  predicate IsCornerLowerLeft(rows: int, cols: int, row: int, col: int) { row == rows - 1 && col == 0 }
  predicate IsEdgeUpper(rows: int, cols: int, row: int, col: int) { row == 0 }
  predicate IsEdgeLower(rows: int, cols: int, row: int, col: int) { row == rows - 1 }
  predicate IsEdgeLeft(rows: int, cols: int, row: int, col: int) { col == 0 }
  predicate IsEdgeRight(rows: int, cols: int, row: int, col: int) { col == cols - 1 }

  predicate IsCorner(rows: int, cols: int, row: int, col: int)
  {
    IsCornerUpperLeft(rows, cols, row, col) || IsCornerUpperRight(rows, cols, row, col) ||
    IsCornerLowerLeft(rows, cols, row, col) || IsCornerLowerRight(rows, cols, row, col)
  }

  predicate OnBorder(rows: int, cols: int, row: int, col: int)
  {
    row == 0 || row == rows - 1 || col == 0 || col == cols - 1
  }

  /** Every connector of x leads to a cell inside a rows x cols grid. */
  predicate PointsInside(x: Code, rows: int, cols: int, row: int, col: int)
  {
    && (Opens(x, Up) ==> row > 0)
    && (Opens(x, Down) ==> row < rows - 1)
    && (Opens(x, Left) ==> col > 0)
    && (Opens(x, Right) ==> col < cols - 1)
  }

  /**
   * get_valid_rotations_pos: the corner table of a corner cell, else the
   * edge table of an edge cell, else [] for an interior cell. A corner
   * table's None would make `extend` raise, which is the None result here.
   */
  function BoundaryActions(p: Code, rows: int, cols: int, row: int, col: int): (r: Option<seq<Code>>)
    ensures r.None? <==> IsCorner(rows, cols, row, col) && FamilyOf(p) in {Tee, Straight}
    ensures r.Some? ==> Distinct(r.value)
    ensures r.Some? ==> forall x :: x in r.value ==> FamilyOf(x) == FamilyOf(p)
    ensures !OnBorder(rows, cols, row, col) ==> r == Some([])
    ensures OnBorder(rows, cols, row, col) ==> r.None? || |r.value| > 0
    ensures rows >= 2 && cols >= 2 && 0 <= row < rows && 0 <= col < cols && OnBorder(rows, cols, row, col) ==>
      r.None? || forall x :: x in r.value <==> FamilyOf(x) == FamilyOf(p) && PointsInside(x, rows, cols, row, col)
  {
    if IsCornerUpperLeft(rows, cols, row, col) then UpperLeftCornerActions(p)
    else if IsCornerUpperRight(rows, cols, row, col) then UpperRightCornerActions(p)
    else if IsCornerLowerLeft(rows, cols, row, col) then LowerLeftCornerActions(p)
    else if IsCornerLowerRight(rows, cols, row, col) then LowerRightCornerActions(p)
    else if IsEdgeUpper(rows, cols, row, col) &&
            !(IsCornerUpperLeft(rows, cols, row, col) || IsCornerUpperRight(rows, cols, row, col)) then
      Some(UpperEdgeActions(p))
    else if IsEdgeLower(rows, cols, row, col) &&
            !(IsCornerLowerLeft(rows, cols, row, col) || IsCornerLowerRight(rows, cols, row, col)) then
      Some(LowerEdgeActions(p))
    else if IsEdgeLeft(rows, cols, row, col) &&
            !(IsCornerUpperLeft(rows, cols, row, col) || IsCornerUpperRight(rows, cols, row, col)) then
      Some(LeftEdgeActions(p))
    else if IsEdgeRight(rows, cols, row, col) &&
            !(IsCornerUpperRight(rows, cols, row, col) || IsCornerLowerRight(rows, cols, row, col)) then
      Some(RightEdgeActions(p))
    else Some([])
  }
}
