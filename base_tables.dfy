/**
 * The left and right neighbour tables of base/pipe.py as written. The
 * bordered draft's neighbour lookups use them; the tables of the other
 * files, in Tables, are the intended ones.
 */
module BaseTables {
  import opened Pieces
  import opened Tables

  // ---------------------------------------------------------------------
  // The left and right tables as written
  // ---------------------------------------------------------------------

  /**
   * valid_actions_with_left_neighbor as written in this file. Its lists
   * read 'VD' 'VB', which Python joins into the one string "VDVB", so a
   * fixed VD or VB on the left is taken for a piece that does not open
   * toward the cell.
   */
  function LeftActionsAsWritten(p: Code, n: Code): (r: seq<Code>)
    ensures n != VD && n != VB ==> r == LeftNeighbourActions(p, n)
    ensures (n == VD || n == VB) && FamilyOf(p) == Terminal ==> r == []
    ensures (n == VD || n == VB) && FamilyOf(p) != Terminal ==>
      |r| > 0 && forall x :: x in r <==> FamilyOf(x) == FamilyOf(p) && !Opens(x, Left)
  {
    match FamilyOf(p)
    case Terminal =>
      if n in [BB, BC, BD, LH] then [FE]
      else if n in [FC, FB, FE, BE, VC, VE, LV] then [FB, FC, FD]
      else []
    case Tee => if n in [FD, BB, BC, BD, LH] then [BC, BE, BB] else [BD]
    case Elbow => if n in [FD, BB, BC, BD, LH] then [VC, VE] else [VB, VD]
    case Straight => if n in [FD, BB, BC, BD, LH] then [LH] else [LV]
  }

  /**
   * Next to a fixed VD, which opens to the right, the left table as
   * written offers a tee only BD, which has no left connector; the
   * corrected table offers the three tees that do. A terminal next to a
   * fixed VB gets no candidate at all instead of FE.
   */
  lemma LeftTableMissesElbows()
    ensures Opens(VD, Right) && Opens(VB, Right)
    ensures LeftActionsAsWritten(BC, VD) == [BD] && !Opens(BD, Left)
    ensures LeftNeighbourActions(BC, VD) == [BC, BE, BB]
    ensures LeftActionsAsWritten(FC, VB) == [] && LeftNeighbourActions(FC, VB) == [FE]
  {
  }

  /**
   * valid_actions_with_right_neighbor as written in this file: the
   * terminal branch's second list names BE, VD, VB, BC and LH where the
   * pieces without a left connector belong, so a terminal whose fixed
   * right neighbour is FD, FB, BD or LV gets an empty list.
   */
  function RightActionsAsWritten(p: Code, n: Code): (r: seq<Code>)
    ensures FamilyOf(p) != Terminal || n !in [FD, FB, BD, LV] ==> r == RightNeighbourActions(p, n)
    ensures FamilyOf(p) == Terminal && n in [FD, FB, BD, LV] ==>
      r == [] && forall x :: x in RightNeighbourActions(p, n) <==> FamilyOf(x) == Terminal && !Opens(x, Right)
  {
    match FamilyOf(p)
    case Terminal =>
      if n in [BC, BB, BE, VC, VE, LH] then [FD]
      else if n in [FC, BE, VD, VB, BC, LH] then [FB, FE, FC]
      else []
    case Tee => if n in [FE, BC, BB, BE, VC, VE, LH] then [BC, BB, BD] else [BE]
    case Elbow => if n in [FE, BC, BB, BE, VC, VE, LH] then [VB, VD] else [VC, VE]
    case Straight => if n in [FE, BC, BB, BE, VC, VE, LH] then [LH] else [LV]
  }

  /**
   * A terminal left of a fixed LV, which has no left connector, may point
   * up, down or left; the table as written allows it nothing.
   */
  lemma RightTableEmptiesTerminals()
    ensures !Opens(LV, Left)
    ensures RightActionsAsWritten(FC, LV) == []
    ensures RightNeighbourActions(FC, LV) == [FB, FE, FC]
  {
  }
}
