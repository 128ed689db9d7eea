/**
 * The boundary tables (valid_*_corner_actions, valid_*_edge_actions) and
 * the per-direction neighbour tables (valid_actions_with_*_neighbor).
 * The text of these tables is the same in the final solver, the diagonal
 * draft and the depth-first draft.
 */
module Tables {
  import opened Wrappers
  import opened Pieces

  // ---------------------------------------------------------------------
  // Boundary tables
  // ---------------------------------------------------------------------

  /** x is an orientation of p's family with no connector toward d. */
  predicate Avoids(x: Code, p: Code, d: Dir)
  {
    FamilyOf(x) == FamilyOf(p) && !Opens(x, d)
  }

  /**
   * A corner table lists exactly the orientations of the piece's family
   * that point neither through side a nor through side b, and has no entry
   * (None) exactly when every orientation of the family points out.
   */
  predicate CornerTable(r: Option<seq<Code>>, p: Code, a: Dir, b: Dir)
  {
    && (r.None? <==> forall x :: FamilyOf(x) == FamilyOf(p) ==> Opens(x, a) || Opens(x, b))
    && (r.Some? ==> forall x :: x in r.value <==> Avoids(x, p, a) && Avoids(x, p, b))
    && (r.Some? ==> Distinct(r.value))
    && (r.Some? ==> |r.value| == if FamilyOf(p) == Terminal then 2 else 1)
  }

  /** An edge table lists exactly the orientations that avoid side d. */
  predicate EdgeTable(r: seq<Code>, p: Code, d: Dir)
  {
    && (forall x :: x in r <==> Avoids(x, p, d))
    && Distinct(r)
    && |r| == match FamilyOf(p) case Terminal => 3 case Elbow => 2 case _ => 1
  }

  function UpperLeftCornerActions(p: Code): (r: Option<seq<Code>>)
    ensures CornerTable(r, p, Up, Left)
  {
    if FamilyOf(p) == Terminal then (assert Avoids(FB, p, Up); Some([FB, FD]))
    else if FamilyOf(p) == Elbow then (assert Avoids(VB, p, Up); Some([VB]))
    else None
  }

  function UpperRightCornerActions(p: Code): (r: Option<seq<Code>>)
    ensures CornerTable(r, p, Up, Right)
  {
    if FamilyOf(p) == Terminal then (assert Avoids(FB, p, Up); Some([FB, FE]))
    else if FamilyOf(p) == Elbow then (assert Avoids(VE, p, Up); Some([VE]))
    else None
  }

  function LowerLeftCornerActions(p: Code): (r: Option<seq<Code>>)
    ensures CornerTable(r, p, Down, Left)
  {
    if FamilyOf(p) == Terminal then (assert Avoids(FC, p, Down); Some([FC, FD]))
    else if FamilyOf(p) == Elbow then (assert Avoids(VD, p, Down); Some([VD]))
    else None
  }

  function LowerRightCornerActions(p: Code): (r: Option<seq<Code>>)
    ensures CornerTable(r, p, Down, Right)
  {
    if FamilyOf(p) == Terminal then (assert Avoids(FC, p, Down); Some([FC, FE]))
    else if FamilyOf(p) == Elbow then (assert Avoids(VC, p, Down); Some([VC]))
    else None
  }

  function UpperEdgeActions(p: Code): (r: seq<Code>)
    ensures EdgeTable(r, p, Up)
  {
    match FamilyOf(p)
    case Terminal => [FB, FD, FE]
    case Tee => [BB]
    case Elbow => [VB, VE]
    case Straight => [LH]
  }

  function LowerEdgeActions(p: Code): (r: seq<Code>)
    ensures EdgeTable(r, p, Down)
  {
    match FamilyOf(p)
    case Terminal => [FC, FD, FE]
    case Tee => [BC]
    case Elbow => [VD, VC]
    case Straight => [LH]
  }

  function LeftEdgeActions(p: Code): (r: seq<Code>)
    ensures EdgeTable(r, p, Left)
  {
    match FamilyOf(p)
    case Terminal => [FC, FB, FD]
    case Tee => [BD]
    case Elbow => [VB, VD]
    case Straight => [LV]
  }

  function RightEdgeActions(p: Code): (r: seq<Code>)
    ensures EdgeTable(r, p, Right)
  {
    match FamilyOf(p)
    case Terminal => [FC, FB, FE]
    case Tee => [BE]
    case Elbow => [VE, VC]
    case Straight => [LV]
  }

  /** Every code is one of the fourteen listed. */
  lemma CodeCases(c: Code)
    ensures c in [FC, FB, FE, FD, BC, BB, BE, BD, VC, VB, VE, VD, LH, LV]
  {
  }

  // ---------------------------------------------------------------------
  // Neighbour tables
  // ---------------------------------------------------------------------

  /**
   * Orientation x of the cell agrees with the fixed neighbour n lying in
   * direction d: x opens toward n exactly when n opens back toward the cell.
   */
  predicate Agrees(x: Code, d: Dir, n: Code)
  {
    Opens(x, d) <==> Opens(n, Opposite(d))
  }

  /**
   * A terminal cell facing a terminal neighbour that points at it: the
   * tables give no constraint (an empty list) in this case.
   */
  predicate FacingTerminals(p: Code, d: Dir, n: Code)
  {
    FamilyOf(p) == Terminal && FamilyOf(n) == Terminal && Opens(n, Opposite(d))
  }

  /**
   * A neighbour table lists exactly the orientations of the piece's family
   * that agree with the neighbour, except that two facing terminals give [].
   */
  predicate NeighbourTable(r: seq<Code>, p: Code, d: Dir, n: Code)
  {
    && (FacingTerminals(p, d, n) ==> r == [])
    && (!FacingTerminals(p, d, n) ==>
          forall x :: x in r <==> FamilyOf(x) == FamilyOf(p) && Agrees(x, d, n))
    && (!FacingTerminals(p, d, n) ==> |r| > 0)
    && Distinct(r)
  }

  /** The terminal branch of the upper table. */
  function UpperTerminalActions(p: Code, n: Code): (r: seq<Code>)
    requires FamilyOf(p) == Terminal
    ensures NeighbourTable(r, p, Up, n)
  {
    if n in [BB, BE, BD, VB, VE, LV] then [FC]
    else if n in [FC, FE, FD, BC, VC, VD, LH] then [FB, FE, FD]
    else []
  }

  /** The terminal branch of the lower table, which has no final return. */
  function LowerTerminalActions(p: Code, n: Code): (r: Option<seq<Code>>)
    requires FamilyOf(p) == Terminal
    ensures r.None? <==> n == FC
    ensures r.Some? ==> NeighbourTable(r.value, p, Down, n)
  {
    if n in [FB, FE, FD, BB, VB, VE, LH] then Some([FC, FE, FD])
    else if n in [BC, BE, BD, VC, VD, LV] then Some([FB])
    else (CodeCases(n); None)
  }

  /** The terminal branch of the left table. */
  function LeftTerminalActions(p: Code, n: Code): (r: seq<Code>)
    requires FamilyOf(p) == Terminal
    ensures NeighbourTable(r, p, Left, n)
  {
    if n in [BB, BC, BD, VD, VB, LH] then [FE]
    else if n in [FC, FB, FE, BE, VC, VE, LV] then [FB, FC, FD]
    else []
  }

  /** The terminal branch of the right table. */
  function RightTerminalActions(p: Code, n: Code): (r: seq<Code>)
    requires FamilyOf(p) == Terminal
    ensures NeighbourTable(r, p, Right, n)
  {
    if n in [BC, BB, BE, VC, VE, LH] then [FD]
    else if n in [FC, FD, FB, BD, VD, VB, LV] then [FB, FE, FC]
    else []
  }

  function UpperNeighbourActions(p: Code, n: Code): (r: seq<Code>)
    ensures NeighbourTable(r, p, Up, n)
  {
    match FamilyOf(p)
    case Terminal => UpperTerminalActions(p, n)
    case Tee => if n in [FB, BB, BE, BD, VB, VE, LV] then [BC, BE, BD] else [BB]
    case Elbow => if n in [FB, BB, BE, BD, VB, VE, LV] then [VC, VD] else [VB, VE]
    case Straight => if n in [FB, BB, BE, BD, VB, VE, LV] then [LV] else [LH]
  }

  /**
   * The lower table's terminal branch has no final return: a terminal with
   * FC below gets None.
   */
  function LowerNeighbourActions(p: Code, n: Code): (r: Option<seq<Code>>)
    ensures r.None? <==> FamilyOf(p) == Terminal && n == FC
    ensures r.Some? ==> NeighbourTable(r.value, p, Down, n)
  {
    if FamilyOf(p) == Terminal then LowerTerminalActions(p, n) else Some(LowerJointActions(p, n))
  }

  /** The tee, elbow and straight branches of the lower table. */
  function LowerJointActions(p: Code, n: Code): (r: seq<Code>)
    requires FamilyOf(p) != Terminal
    ensures NeighbourTable(r, p, Down, n)
  {
    if FamilyOf(p) == Tee then (if n in [FB, FE, FD, BB, VB, VE, LH] then [BC] else [BB, BE, BD])
    else if FamilyOf(p) == Elbow then (if n in [FB, FE, FD, BB, VB, VE, LH] then [VC, VD] else [VB, VE])
    else (if n in [FB, FE, FD, BB, VB, VE, LH] then [LH] else [LV])
  }

  function LeftNeighbourActions(p: Code, n: Code): (r: seq<Code>)
    ensures NeighbourTable(r, p, Left, n)
  {
    match FamilyOf(p)
    case Terminal => LeftTerminalActions(p, n)
    case Tee => if n in [FD, BB, BC, BD, VD, VB, LH] then [BC, BE, BB] else [BD]
    case Elbow => if n in [FD, BB, BC, BD, VD, VB, LH] then [VC, VE] else [VB, VD]
    case Straight => if n in [FD, BB, BC, BD, VD, VB, LH] then [LH] else [LV]
  }

  function RightNeighbourActions(p: Code, n: Code): (r: seq<Code>)
    ensures NeighbourTable(r, p, Right, n)
  {
    match FamilyOf(p)
    case Terminal => RightTerminalActions(p, n)
    case Tee => if n in [FE, BC, BB, BE, VC, VE, LH] then [BC, BB, BD] else [BE]
    case Elbow => if n in [FE, BC, BB, BE, VC, VE, LH] then [VB, VD] else [VC, VE]
    case Straight => if n in [FE, BC, BB, BE, VC, VE, LH] then [LH] else [LV]
  }

  /**
   * A terminal next to a fixed non-terminal that opens toward it is forced
   * to point back at that neighbour.
   */
  lemma TerminalPointsBack(p: Code, n: Code)
    requires FamilyOf(p) == Terminal && FamilyOf(n) != Terminal
    ensures Opens(n, Down) ==> UpperNeighbourActions(p, n) == [FC]
    ensures Opens(n, Up) ==> LowerNeighbourActions(p, n) == Some([FB])
    ensures Opens(n, Right) ==> LeftNeighbourActions(p, n) == [FE]
    ensures Opens(n, Left) ==> RightNeighbourActions(p, n) == [FD]
  {
    if Opens(n, Down) { UpperPointsBack(p, n); }
    if Opens(n, Up) { LowerPointsBack(p, n); }
    if Opens(n, Right) { LeftPointsBack(p, n); }
    if Opens(n, Left) { RightPointsBack(p, n); }
  }

  lemma UpperPointsBack(p: Code, n: Code)
    requires FamilyOf(p) == Terminal && FamilyOf(n) != Terminal && Opens(n, Down)
    ensures UpperTerminalActions(p, n) == [FC]
  {
  }

  lemma LowerPointsBack(p: Code, n: Code)
    requires FamilyOf(p) == Terminal && FamilyOf(n) != Terminal && Opens(n, Up)
    ensures LowerTerminalActions(p, n) == Some([FB])
  {
  }

  lemma LeftPointsBack(p: Code, n: Code)
    requires FamilyOf(p) == Terminal && FamilyOf(n) != Terminal && Opens(n, Right)
    ensures LeftTerminalActions(p, n) == [FE]
  {
  }

  lemma RightPointsBack(p: Code, n: Code)
    requires FamilyOf(p) == Terminal && FamilyOf(n) != Terminal && Opens(n, Left)
    ensures RightTerminalActions(p, n) == [FD]
  {
  }
}
