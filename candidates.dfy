/**
 * The candidate orientations of one cell: get_valid_rotations_neighbors,
 * piece_restrictions (f_piece_restrictions in the diagonal draft) and
 * get_valid_rotations, shared by the final solver and the diagonal draft.
 */
module Candidates {
  import opened Wrappers
  import opened Pieces
  import opened Tables
  import opened Boundary
  import opened Grids

  /** The two places where the source would raise a TypeError. */
  datatype Failure =
    | CornerTableNone  // a tee or straight at a corner: extend(None)
    | LowerTableNone   // a terminal above a fixed FC: extend(None)

  /**
   * The pattern rule a draft applies after the neighbour intersection:
   * the final solver's piece_restrictions covers terminals, elbows and
   * straights; the diagonal draft's f_piece_restrictions only terminals;
   * the depth-first draft applies none.
   */
  datatype PatternRule = AllFamilies | TerminalsOnly | NoPattern

  // ---------------------------------------------------------------------
  // Intersection of the neighbour tables
  // ---------------------------------------------------------------------

  /** [value for value in a if value in b] */
  function Filter(a: seq<Code>, b: seq<Code>): (r: seq<Code>)
    ensures forall x :: x in r <==> x in a && x in b
    ensures Distinct(a) ==> Distinct(r)
    ensures |r| <= |a|
  {
    if |a| == 0 then []
    else if a[0] in b then [a[0]] + Filter(a[1..], b)
    else Filter(a[1..], b)
  }

  /** Folds Filter over the lists, keeping the order of the first one. */
  function IntersectAll(acc: seq<Code>, ls: seq<seq<Code>>): (r: seq<Code>)
    ensures forall x :: x in r <==> x in acc && forall k :: 0 <= k < |ls| ==> x in ls[k]
    ensures Distinct(acc) ==> Distinct(r)
    decreases |ls|
  {
    if |ls| == 0 then acc
    else
      var r := IntersectAll(Filter(acc, ls[0]), ls[1..]);
      assert forall k :: 1 <= k < |ls| ==> ls[1..][k - 1] == ls[k];
      r
  }

  /** The lists among the four that are non-empty, in order. */
  function NonEmpty(ls: seq<seq<Code>>): (r: seq<seq<Code>>)
    ensures forall l :: l in r <==> l in ls && |l| > 0
  {
    if |ls| == 0 then []
    else if |ls[0]| > 0 then [ls[0]] + NonEmpty(ls[1..])
    else NonEmpty(ls[1..])
  }

  /**
   * x agrees with the fixed neighbour nb (None: off-grid or unfixed) lying
   * in direction d, unless the tables ignore nb because two terminals face
   * each other.
   */
  predicate AgreesWith(x: Code, p: Code, d: Dir, nb: Option<Code>)
  {
    nb.Some? && !FacingTerminals(p, d, nb.value) ==> Agrees(x, d, nb.value)
  }

  predicate AgreesWithAll(x: Code, p: Code, up: Option<Code>, down: Option<Code>, left: Option<Code>, right: Option<Code>)
  {
    AgreesWith(x, p, Up, up) && AgreesWith(x, p, Down, down) &&
    AgreesWith(x, p, Left, left) && AgreesWith(x, p, Right, right)
  }

  /** The table of one side, [] when that side has no fixed neighbour. */
  function SideList(p: Code, d: Dir, nb: Option<Code>): (r: Option<seq<Code>>)
    ensures r.None? <==> d == Down && nb.Some? && FamilyOf(p) == Terminal && nb.value == FC
    ensures r.Some? ==> Distinct(r.value)
    ensures r.Some? ==> (|r.value| > 0 <==> nb.Some? && !FacingTerminals(p, d, nb.value))
    ensures r.Some? && |r.value| > 0 ==>
      forall x :: x in r.value <==> FamilyOf(x) == FamilyOf(p) && AgreesWith(x, p, d, nb)
  {
    if nb.None? then Some([])
    else
      match d
      case Up => Some(UpperNeighbourActions(p, nb.value))
      case Down => LowerNeighbourActions(p, nb.value)
      case Left => Some(LeftNeighbourActions(p, nb.value))
      case Right => Some(RightNeighbourActions(p, nb.value))
  }

  /** x lies in every non-empty list of ls. */
  predicate InEveryNonEmpty(x: Code, ls: seq<seq<Code>>)
  {
    forall k :: 0 <= k < |ls| && |ls[k]| > 0 ==> x in ls[k]
  }

  /** Intersecting the non-empty lists keeps what lies in all of them. */
  lemma MeetOfNonEmpty(ls: seq<seq<Code>>)
    requires |NonEmpty(ls)| > 0
    ensures forall x :: x in IntersectAll(NonEmpty(ls)[0], NonEmpty(ls)[1..]) <==> InEveryNonEmpty(x, ls)
  {
    var existing := NonEmpty(ls);
    forall x
      ensures x in IntersectAll(existing[0], existing[1..]) <==> InEveryNonEmpty(x, ls)
    {
      assert forall k :: 1 <= k < |existing| ==> existing[1..][k - 1] == existing[k];
      assert existing[0] in existing;
      if InEveryNonEmpty(x, ls) {
        forall k | 0 <= k < |existing| ensures x in existing[k] {
          assert existing[k] in existing;
          var j :| 0 <= j < |ls| && ls[j] == existing[k];
        }
      }
      if forall k :: 0 <= k < |existing| ==> x in existing[k] {
        forall k | 0 <= k < |ls| && |ls[k]| > 0 ensures x in ls[k] {
          assert ls[k] in ls;
          assert ls[k] in existing;
        }
      }
    }
  }

  /** With no non-empty list, every list is empty. */
  lemma NoNonEmpty(ls: seq<seq<Code>>)
    requires |NonEmpty(ls)| == 0
    ensures forall k :: 0 <= k < |ls| ==> |ls[k]| == 0
  {
    forall k | 0 <= k < |ls| ensures |ls[k]| == 0 {
      assert ls[k] in ls;
    }
  }

  /** A side's list constrains x exactly when x must agree with that side. */
  lemma SideMeaning(x: Code, p: Code, d: Dir, nb: Option<Code>)
    requires SideList(p, d, nb).Some? && FamilyOf(x) == FamilyOf(p)
    ensures (|SideList(p, d, nb).value| > 0 ==> x in SideList(p, d, nb).value) <==> AgreesWith(x, p, d, nb)
  {
  }

  /** The four side lists together constrain x as AgreesWithAll says. */
  lemma SidesMeaning(x: Code, p: Code, up: Option<Code>, down: Option<Code>, left: Option<Code>, right: Option<Code>,
                     ls: seq<seq<Code>>)
    requires |ls| == 4
    requires (|ls[0]| > 0 ==> x in ls[0]) <==> AgreesWith(x, p, Up, up)
    requires (|ls[1]| > 0 ==> x in ls[1]) <==> AgreesWith(x, p, Down, down)
    requires (|ls[2]| > 0 ==> x in ls[2]) <==> AgreesWith(x, p, Left, left)
    requires (|ls[3]| > 0 ==> x in ls[3]) <==> AgreesWith(x, p, Right, right)
    ensures InEveryNonEmpty(x, ls) <==> AgreesWithAll(x, p, up, down, left, right)
  {
    if AgreesWithAll(x, p, up, down, left, right) {
      forall k | 0 <= k < |ls| && |ls[k]| > 0 ensures x in ls[k] {
        assert k == 0 || k == 1 || k == 2 || k == 3;
      }
    }
  }

  /** A rotation of p's family is in every non-empty table exactly when it agrees with all four neighbours. */
  lemma IntersectionMeaning(p: Code, up: Option<Code>, down: Option<Code>, left: Option<Code>, right: Option<Code>,
                            ls: seq<seq<Code>>)
    requires SideList(p, Up, up).Some? && SideList(p, Down, down).Some?
    requires SideList(p, Left, left).Some? && SideList(p, Right, right).Some?
    requires ls == [SideList(p, Up, up).value, SideList(p, Down, down).value,
                    SideList(p, Left, left).value, SideList(p, Right, right).value]
    ensures forall x :: FamilyOf(x) == FamilyOf(p) ==>
      (InEveryNonEmpty(x, ls) <==> AgreesWithAll(x, p, up, down, left, right))
  {
    forall x | FamilyOf(x) == FamilyOf(p)
      ensures InEveryNonEmpty(x, ls) <==> AgreesWithAll(x, p, up, down, left, right)
    {
      SideMeaning(x, p, Up, up);
      SideMeaning(x, p, Down, down);
      SideMeaning(x, p, Left, left);
      SideMeaning(x, p, Right, right);
      SidesMeaning(x, p, up, down, left, right, ls);
    }
  }

  /**
   * The first half of get_valid_rotations_neighbors: the intersection of the
   * non-empty neighbour tables, or every rotation when all are empty.
   */
  function NeighbourIntersection(p: Code, up: Option<Code>, down: Option<Code>, left: Option<Code>, right: Option<Code>)
    : (r: Result<seq<Code>, Failure>)
    ensures r.Err? <==> down.Some? && FamilyOf(p) == Terminal && down.value == FC
    ensures r.Ok? ==> Distinct(r.value)
    ensures r.Ok? ==> forall x :: x in r.value <==>
      FamilyOf(x) == FamilyOf(p) && AgreesWithAll(x, p, up, down, left, right)
  {
    var upper := SideList(p, Up, up);
    var lower := SideList(p, Down, down);
    var lft := SideList(p, Left, left);
    var rgt := SideList(p, Right, right);
    if lower.None? then Err(LowerTableNone)
    else
      var ls := [upper.value, lower.value, lft.value, rgt.value];
      var existing := NonEmpty(ls);
      IntersectionMeaning(p, up, down, left, right, ls);
      if |existing| == 0 then
        NoNonEmpty(ls);
        assert forall x :: InEveryNonEmpty(x, ls);
        Ok(AllRotations(p))
      else
        MeetOfNonEmpty(ls);
        assert existing[0] in existing;
        assert existing[0] in ls;
        Ok(IntersectAll(existing[0], existing[1..]))
  }

  // ---------------------------------------------------------------------
  // Pattern rules around terminal neighbours
  // ---------------------------------------------------------------------

  /** Which in-grid neighbours hold a terminal (a code starting with F). */
  datatype Flags = Flags(upper: bool, lower: bool, left: bool, right: bool)

  function FCount(f: Flags): nat
  {
    Ones(f.upper) + Ones(f.lower) + Ones(f.left) + Ones(f.right)
  }

  /** The number of x's connectors that point at a terminal neighbour. */
  function FSides(x: Code, f: Flags): nat
  {
    Ones(Opens(x, Up) && f.upper) + Ones(Opens(x, Down) && f.lower) +
    Ones(Opens(x, Left) && f.left) + Ones(Opens(x, Right) && f.right)
  }

  /** The flags of a cell, read from the grid of codes. */
  function FlagsAt(g: Grid, rows: int, cols: int, row: int, col: int): Flags
    requires Shaped(g, rows, cols) && InGrid(rows, cols, row, col)
  {
    Flags(row > 0 && FamilyOf(g[row - 1][col]) == Terminal,
          row < rows - 1 && FamilyOf(g[row + 1][col]) == Terminal,
          col > 0 && FamilyOf(g[row][col - 1]) == Terminal,
          col < cols - 1 && FamilyOf(g[row][col + 1]) == Terminal)
  }

  /**
   * The terminal branch of the pattern rules: None when the count of
   * terminal neighbours is 0 or 4; otherwise exactly the orientations that
   * point at no terminal neighbour.
   */
  function TerminalPattern(f: Flags): (r: Option<seq<Code>>)
    ensures r.None? <==> FCount(f) == 0 || FCount(f) == 4
    ensures r.Some? ==> Distinct(r.value)
    ensures r.Some? ==> forall x :: x in r.value <==> FamilyOf(x) == Terminal && FSides(x, f) == 0
  {
    var k := FCount(f);
    if k == 1 then
      if f.upper then Some([FB, FE, FD])
      else if f.left then Some([FC, FD, FB])
      else if f.lower then Some([FC, FE, FD])
      else Some([FC, FB, FE])
    else if k == 2 then
      if f.upper && f.lower then Some([FE, FD])
      else if f.left && f.right then Some([FC, FB])
      else if f.upper && f.right then Some([FE, FB])
      else if f.upper && f.left then Some([FD, FB])
      else if f.lower && f.right then Some([FE, FC])
      else Some([FD, FC])
    else if k == 3 then
      if !f.upper then Some([FC])
      else if !f.lower then Some([FB])
      else if !f.left then Some([FE])
      else Some([FD])
    else None
  }

  /**
   * The elbow branch: None (no restriction) unless two or three neighbours
   * are terminals and the two-terminal case is a corner pair.
   */
  function ElbowPattern(f: Flags): (r: Option<seq<Code>>)
    ensures r.Some? ==> Distinct(r.value)
    ensures r.Some? ==> forall x :: x in r.value <==> FamilyOf(x) == Elbow && FSides(x, f) <= 1
    ensures r.None? && FCount(f) <= 3 ==> forall x :: FamilyOf(x) == Elbow ==> FSides(x, f) <= 1
  {
    var k := FCount(f);
    if k == 2 then ElbowPair(f)
    else if k == 3 then Some(ElbowTriple(f))
    else None
  }

  /** Two terminal neighbours: a corner pair leaves the elbows that face at most one. */
  function ElbowPair(f: Flags): (r: Option<seq<Code>>)
    requires FCount(f) == 2
    ensures r.Some? ==> Distinct(r.value)
    ensures r.Some? ==> forall x :: x in r.value <==> FamilyOf(x) == Elbow && FSides(x, f) <= 1
    ensures r.None? ==> forall x :: FamilyOf(x) == Elbow ==> FSides(x, f) <= 1
  {
    if f.upper && f.right then Some([VC, VE, VB])
    else if f.upper && f.left then Some([VD, VE, VB])
    else if f.lower && f.right then Some([VC, VD, VE])
    else if f.lower && f.left then Some([VC, VD, VB])
    else None
  }

  /** Three terminal neighbours: the two elbows that face the free side. */
  function ElbowTriple(f: Flags): (r: seq<Code>)
    requires FCount(f) == 3
    ensures Distinct(r)
    ensures forall x :: x in r <==> FamilyOf(x) == Elbow && FSides(x, f) <= 1
  {
    if !f.upper then [VC, VD]
    else if !f.lower then [VB, VE]
    else if !f.left then [VC, VE]
    else [VD, VB]
  }

  /** The straight branch, built the same way. */
  function StraightPattern(f: Flags): (r: Option<seq<Code>>)
    ensures r.Some? ==> Distinct(r.value)
    ensures r.Some? ==> forall x :: x in r.value <==> FamilyOf(x) == Straight && FSides(x, f) <= 1
    ensures r.None? && FCount(f) <= 3 ==> forall x :: FamilyOf(x) == Straight ==> FSides(x, f) <= 1
  {
    var k := FCount(f);
    if k == 2 then
      if f.upper && f.lower then Some([LH])
      else if f.left && f.right then Some([LV])
      else None
    else if k == 3 then
      if !f.upper then Some([LV])
      else if !f.lower then Some([LV])
      else if !f.left then Some([LH])
      else Some([LH])
    else None
  }

  /** How many terminal neighbours an orientation of p's family may face. */
  function FLimit(p: Code): nat
  {
    if FamilyOf(p) == Terminal then 0 else 1
  }

  /**
   * piece_restrictions: a sublist of get_all_rotations, never None. With at
   * most three terminal neighbours it keeps exactly the orientations that
   * face no terminal (for a terminal) or at most one (for an elbow or a
   * straight); a tee is never restricted.
   */
  function PieceRestrictions(p: Code, f: Flags): (r: seq<Code>)
    ensures forall x :: x in r ==> FamilyOf(x) == FamilyOf(p)
    ensures Distinct(r)
    ensures FamilyOf(p) == Tee || FCount(f) == 4 ==> r == AllRotations(p)
    ensures FamilyOf(p) != Tee && FCount(f) <= 3 ==>
      forall x :: x in r <==> FamilyOf(x) == FamilyOf(p) && FSides(x, f) <= FLimit(p)
  {
    var pattern := match FamilyOf(p)
      case Terminal => TerminalPattern(f)
      case Elbow => ElbowPattern(f)
      case Straight => StraightPattern(f)
      case Tee => None;
    if FCount(f) == 4 && FamilyOf(p) == Terminal then AllRotations(p)
    else if pattern.Some? then pattern.value else AllRotations(p)
  }

  /** A terminal with three terminal neighbours must point at the fourth side. */
  lemma ThreeTerminalNeighboursForce(f: Flags)
    requires FCount(f) == 3
    ensures !f.upper ==> PieceRestrictions(FC, f) == [FC]
    ensures !f.lower ==> PieceRestrictions(FC, f) == [FB]
    ensures !f.left ==> PieceRestrictions(FC, f) == [FE]
    ensures !f.right ==> PieceRestrictions(FC, f) == [FD]
  {
  }

  /**
   * f_piece_restrictions: None for a non-terminal and for a terminal with
   * zero or four terminal neighbours; otherwise the orientations that point
   * at no terminal neighbour.
   */
  function FPieceRestrictions(p: Code, f: Flags): (r: Option<seq<Code>>)
    ensures r.None? <==> FamilyOf(p) != Terminal || FCount(f) == 0 || FCount(f) == 4
    ensures r.Some? ==> forall x :: x in r.value <==> FamilyOf(x) == Terminal && FSides(x, f) == 0
  {
    if FamilyOf(p) == Terminal then TerminalPattern(f) else None
  }

  /** The restriction a draft's rule yields for a cell; None means none. */
  function Restriction(rule: PatternRule, p: Code, f: Flags): Option<seq<Code>>
  {
    match rule
    case AllFamilies => Some(PieceRestrictions(p, f))
    case TerminalsOnly => FPieceRestrictions(p, f)
    case NoPattern => None
  }

  predicate Allowed(rule: PatternRule, p: Code, f: Flags, x: Code)
  {
    Restriction(rule, p, f).Some? ==> x in Restriction(rule, p, f).value
  }

  // ---------------------------------------------------------------------
  // The candidates of one cell
  // ---------------------------------------------------------------------

  /** The fixed code of the neighbour in direction d, None off-grid or unfixed. */
  function FixedNeighbour(e: Explored, rows: int, cols: int, row: int, col: int, d: Dir): Option<Code>
    requires Shaped(e, rows, cols) && InGrid(rows, cols, row, col)
  {
    match d
    case Up => if row > 0 then e[row - 1][col] else None
    case Down => if row < rows - 1 then e[row + 1][col] else None
    case Left => if col > 0 then e[row][col - 1] else None
    case Right => if col < cols - 1 then e[row][col + 1] else None
  }

  predicate AgreesWithFixed(x: Code, p: Code, e: Explored, rows: int, cols: int, row: int, col: int)
    requires Shaped(e, rows, cols) && InGrid(rows, cols, row, col)
  {
    AgreesWithAll(x, p, FixedNeighbour(e, rows, cols, row, col, Up), FixedNeighbour(e, rows, cols, row, col, Down),
                  FixedNeighbour(e, rows, cols, row, col, Left), FixedNeighbour(e, rows, cols, row, col, Right))
  }

  /**
   * get_valid_rotations_neighbors: the neighbour intersection, filtered by
   * the draft's pattern rule when that rule yields a list.
   */
  function NeighbourCandidates(rule: PatternRule, g: Grid, e: Explored, rows: int, cols: int, row: int, col: int)
    : (r: Result<seq<Code>, Failure>)
    requires Shaped(g, rows, cols) && Shaped(e, rows, cols) && InGrid(rows, cols, row, col)
    ensures r.Err? <==> FamilyOf(g[row][col]) == Terminal && FixedNeighbour(e, rows, cols, row, col, Down) == Some(FC)
    ensures r.Ok? ==> Distinct(r.value)
    ensures r.Ok? ==> forall x :: x in r.value <==>
      && FamilyOf(x) == FamilyOf(g[row][col])
      && AgreesWithFixed(x, g[row][col], e, rows, cols, row, col)
      && Allowed(rule, g[row][col], FlagsAt(g, rows, cols, row, col), x)
  {
    var p := g[row][col];
    var inter := NeighbourIntersection(p, FixedNeighbour(e, rows, cols, row, col, Up),
      FixedNeighbour(e, rows, cols, row, col, Down), FixedNeighbour(e, rows, cols, row, col, Left),
      FixedNeighbour(e, rows, cols, row, col, Right));
    if inter.Err? then Err(inter.error)
    else
      var restriction := Restriction(rule, p, FlagsAt(g, rows, cols, row, col));
      if restriction.Some? then Ok(Filter(inter.value, restriction.value)) else Ok(inter.value)
  }

  /**
   * The last step of get_valid_rotations: a non-empty boundary list filtered
   * by the neighbour list, else the neighbour list. An empty neighbour list
   * therefore always gives [].
   */
  function Combine(pos: seq<Code>, neigh: seq<Code>): (r: seq<Code>)
    ensures r == if |pos| == 0 then neigh else Filter(pos, neigh)
  {
    assert |neigh| == 0 ==> Filter(pos, neigh) == [] by {
      if |neigh| == 0 && |Filter(pos, neigh)| > 0 {
        assert Filter(pos, neigh)[0] in Filter(pos, neigh);
      }
    }
    if |neigh| != 0 && |pos| != 0 then Filter(pos, neigh)
    else if |pos| == 0 && |neigh| != 0 then neigh
    else []
  }

  /** Pairs each code with the cell's coordinates. */
  function AtCell(codes: seq<Code>, row: int, col: int): (r: seq<Move>)
    ensures |r| == |codes|
    ensures forall k :: 0 <= k < |r| ==> r[k] == Move(codes[k], row, col)
  {
    if |codes| == 0 then [] else [Move(codes[0], row, col)] + AtCell(codes[1..], row, col)
  }

  function Codes(ms: seq<Move>): (r: seq<Code>)
    ensures |r| == |ms| && forall k :: 0 <= k < |ms| ==> r[k] == ms[k].code
  {
    if |ms| == 0 then [] else [ms[0].code] + Codes(ms[1..])
  }

  /** Every orientation the cell may take, as judged by the whole rule set. */
  predicate Admissible(rule: PatternRule, g: Grid, e: Explored, rows: int, cols: int, row: int, col: int, x: Code)
    requires Shaped(g, rows, cols) && Shaped(e, rows, cols) && InGrid(rows, cols, row, col)
  {
    && FamilyOf(x) == FamilyOf(g[row][col])
    && PointsInside(x, rows, cols, row, col)
    && AgreesWithFixed(x, g[row][col], e, rows, cols, row, col)
    && Allowed(rule, g[row][col], FlagsAt(g, rows, cols, row, col), x)
  }

  /** A failure of get_valid_rotations on an unfixed cell. */
  predicate Fails(g: Grid, e: Explored, rows: int, cols: int, row: int, col: int)
    requires Shaped(g, rows, cols) && Shaped(e, rows, cols) && InGrid(rows, cols, row, col)
  {
    || (IsCorner(rows, cols, row, col) && FamilyOf(g[row][col]) in {Tee, Straight})
    || (FamilyOf(g[row][col]) == Terminal && FixedNeighbour(e, rows, cols, row, col, Down) == Some(FC))
  }

  /**
   * get_valid_rotations: [] for an explored cell; it fails exactly on the
   * two dead ends of its tables; otherwise one tuple per candidate, all at
   * this cell.
   */
  function ValidRotations(rule: PatternRule, g: Grid, e: Explored, rows: int, cols: int, row: int, col: int)
    : (r: Result<seq<Move>, Failure>)
    requires Shaped(g, rows, cols) && Shaped(e, rows, cols) && InGrid(rows, cols, row, col)
    ensures e[row][col].Some? ==> r == Ok([])
    ensures r.Err? <==> e[row][col].None? && Fails(g, e, rows, cols, row, col)
    ensures r.Ok? ==> forall k :: 0 <= k < |r.value| ==> r.value[k].row == row && r.value[k].col == col
  {
    if e[row][col].Some? then Ok([])
    else
      var p := g[row][col];
      var pos := BoundaryActions(p, rows, cols, row, col);
      if pos.None? then Err(CornerTableNone)
      else
        var neigh := NeighbourCandidates(rule, g, e, rows, cols, row, col);
        if neigh.Err? then Err(neigh.error)
        else Ok(AtCell(Combine(pos.value, neigh.value), row, col))
  }

  /**
   * The candidates of get_valid_rotations have distinct codes; every one is
   * of the piece's family, agrees with the fixed neighbours and passes the
   * pattern rule; on a grid of at least 2 x 2 they are exactly the
   * admissible orientations.
   */
  lemma ValidRotationsMeaning(rule: PatternRule, g: Grid, e: Explored, rows: int, cols: int, row: int, col: int)
    requires Shaped(g, rows, cols) && Shaped(e, rows, cols) && InGrid(rows, cols, row, col)
    ensures var r := ValidRotations(rule, g, e, rows, cols, row, col);
      && (r.Ok? ==> Distinct(Codes(r.value)))
      && (r.Ok? ==> forall k :: 0 <= k < |r.value| ==>
            && FamilyOf(r.value[k].code) == FamilyOf(g[row][col])
            && AgreesWithFixed(r.value[k].code, g[row][col], e, rows, cols, row, col)
            && Allowed(rule, g[row][col], FlagsAt(g, rows, cols, row, col), r.value[k].code))
      && (r.Ok? && e[row][col].None? && rows >= 2 && cols >= 2 ==>
            forall x :: x in Codes(r.value) <==> Admissible(rule, g, e, rows, cols, row, col, x))
  {
    if e[row][col].None? {
      ValidRotationsCodes(rule, g, e, rows, cols, row, col);
      ValidRotationsDistinct(rule, g, e, rows, cols, row, col);
      ValidRotationsSound(rule, g, e, rows, cols, row, col);
      ValidRotationsComplete(rule, g, e, rows, cols, row, col);
    }
  }

  /** On an unfixed cell, the candidates' codes are Combine's. */
  lemma ValidRotationsCodes(rule: PatternRule, g: Grid, e: Explored, rows: int, cols: int, row: int, col: int)
    requires Shaped(g, rows, cols) && Shaped(e, rows, cols) && InGrid(rows, cols, row, col) && e[row][col].None?
    ensures var r := ValidRotations(rule, g, e, rows, cols, row, col);
      r.Ok? ==>
        && BoundaryActions(g[row][col], rows, cols, row, col).Some?
        && NeighbourCandidates(rule, g, e, rows, cols, row, col).Ok?
        && Codes(r.value) == Combine(BoundaryActions(g[row][col], rows, cols, row, col).value,
                                     NeighbourCandidates(rule, g, e, rows, cols, row, col).value)
  {
    var pos := BoundaryActions(g[row][col], rows, cols, row, col);
    if pos.Some? {
      var neigh := NeighbourCandidates(rule, g, e, rows, cols, row, col);
      if neigh.Ok? {
        var codes := Combine(pos.value, neigh.value);
        assert Codes(AtCell(codes, row, col)) == codes;
      }
    }
  }

  lemma ValidRotationsDistinct(rule: PatternRule, g: Grid, e: Explored, rows: int, cols: int, row: int, col: int)
    requires Shaped(g, rows, cols) && Shaped(e, rows, cols) && InGrid(rows, cols, row, col) && e[row][col].None?
    requires var r := ValidRotations(rule, g, e, rows, cols, row, col);
      r.Ok? ==> Codes(r.value) == Combine(BoundaryActions(g[row][col], rows, cols, row, col).value,
                                          NeighbourCandidates(rule, g, e, rows, cols, row, col).value)
    ensures var r := ValidRotations(rule, g, e, rows, cols, row, col); r.Ok? ==> Distinct(Codes(r.value))
  {
  }

  lemma ValidRotationsSound(rule: PatternRule, g: Grid, e: Explored, rows: int, cols: int, row: int, col: int)
    requires Shaped(g, rows, cols) && Shaped(e, rows, cols) && InGrid(rows, cols, row, col) && e[row][col].None?
    requires var r := ValidRotations(rule, g, e, rows, cols, row, col);
      r.Ok? ==> Codes(r.value) == Combine(BoundaryActions(g[row][col], rows, cols, row, col).value,
                                          NeighbourCandidates(rule, g, e, rows, cols, row, col).value)
    ensures var r := ValidRotations(rule, g, e, rows, cols, row, col);
      r.Ok? ==> forall k :: 0 <= k < |r.value| ==>
        && FamilyOf(r.value[k].code) == FamilyOf(g[row][col])
        && AgreesWithFixed(r.value[k].code, g[row][col], e, rows, cols, row, col)
        && Allowed(rule, g[row][col], FlagsAt(g, rows, cols, row, col), r.value[k].code)
  {
    var r := ValidRotations(rule, g, e, rows, cols, row, col);
    if r.Ok? {
      assert forall k :: 0 <= k < |r.value| ==> r.value[k].code == Codes(r.value)[k];
    }
  }

  lemma ValidRotationsComplete(rule: PatternRule, g: Grid, e: Explored, rows: int, cols: int, row: int, col: int)
    requires Shaped(g, rows, cols) && Shaped(e, rows, cols) && InGrid(rows, cols, row, col) && e[row][col].None?
    requires var r := ValidRotations(rule, g, e, rows, cols, row, col);
      r.Ok? ==> Codes(r.value) == Combine(BoundaryActions(g[row][col], rows, cols, row, col).value,
                                          NeighbourCandidates(rule, g, e, rows, cols, row, col).value)
    ensures var r := ValidRotations(rule, g, e, rows, cols, row, col);
      r.Ok? && rows >= 2 && cols >= 2 ==> forall x :: x in Codes(r.value) <==> Admissible(rule, g, e, rows, cols, row, col, x)
  {
  }

  /** A board's candidate function: the cell's candidates on an explored grid. */
  type Oracle = (Explored, int, int) -> Result<seq<Move>, Failure>

  /**
   * get_valid_rotations of one board (its grid, pattern rule and size) as a
   * function of the explored grid and the cell; off-grid it is [].
   */
  function CandidatesOf(rule: PatternRule, g: Grid, rows: int, cols: int): Oracle
  {
    (e: Explored, row: int, col: int) =>
      if Shaped(g, rows, cols) && Shaped(e, rows, cols) && InGrid(rows, cols, row, col)
      then ValidRotations(rule, g, e, rows, cols, row, col)
      else Ok([])
  }
}
