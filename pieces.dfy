/**
 * Piece codes and connector geometry.
 *
 * Every cell of a board holds a two-letter code: the first letter is the
 * family (F terminal, B tee, V elbow, L straight), the second the direction
 * (C up, B down, E left, D right; H horizontal, V vertical for straights).
 */
module Pieces {
  import opened Wrappers

  datatype Family = Terminal | Tee | Elbow | Straight

  datatype Dir = Up | Down | Left | Right

  datatype Code = FC | FB | FE | FD | BC | BB | BE | BD | VC | VB | VE | VD | LH | LV

  /** The family named by the first letter of a code. */
  function FamilyOf(c: Code): Family
  {
    match c
    case FC | FB | FE | FD => Terminal
    case BC | BB | BE | BD => Tee
    case VC | VB | VE | VD => Elbow
    case LH | LV => Straight
  }

  function Opposite(d: Dir): (r: Dir)
    ensures r != d
  {
    match d
    case Up => Down
    case Down => Up
    case Left => Right
    case Right => Left
  }

  /** The directions a code opens toward. */
  predicate Opens(c: Code, d: Dir)
  {
    match c
    case FC => d == Up
    case FB => d == Down
    case FE => d == Left
    case FD => d == Right
    case BC => d != Down
    case BB => d != Up
    case BE => d != Right
    case BD => d != Left
    case VC => d == Up || d == Left
    case VB => d == Down || d == Right
    case VE => d == Down || d == Left
    case VD => d == Up || d == Right
    case LH => d == Left || d == Right
    case LV => d == Up || d == Down
  }

  /**
   * The geometry agrees with the four membership tests of
   * get_reachable_explored.
   */
  lemma OpensAsReachableLists(c: Code)
    ensures Opens(c, Up) <==> c in [FC, BC, BE, BD, VC, VD, LV]
    ensures Opens(c, Down) <==> c in [FB, BB, BE, BD, VB, VE, LV]
    ensures Opens(c, Right) <==> c in [FD, BC, BB, BD, VD, VB, LH]
    ensures Opens(c, Left) <==> c in [FE, BC, BB, BE, VC, VE, LH]
  {
    OpensUpList(c);
    OpensDownList(c);
    OpensRightList(c);
    OpensLeftList(c);
  }

  lemma OpensUpList(c: Code)
    ensures Opens(c, Up) <==> c in [FC, BC, BE, BD, VC, VD, LV]
  {
  }

  lemma OpensDownList(c: Code)
    ensures Opens(c, Down) <==> c in [FB, BB, BE, BD, VB, VE, LV]
  {
  }

  lemma OpensRightList(c: Code)
    ensures Opens(c, Right) <==> c in [FD, BC, BB, BD, VD, VB, LH]
  {
  }

  lemma OpensLeftList(c: Code)
    ensures Opens(c, Left) <==> c in [FE, BC, BB, BE, VC, VE, LH]
  {
  }

  /** How many connectors a piece of each family has. */
  function Arity(f: Family): nat
  {
    match f
    case Terminal => 1
    case Tee => 3
    case Elbow => 2
    case Straight => 2
  }

  function Ones(b: bool): nat { if b then 1 else 0 }

  /** The number of directions a code opens toward. */
  function ConnectorCount(c: Code): (k: nat)
    ensures k == Arity(FamilyOf(c))
  {
    Ones(Opens(c, Up)) + Ones(Opens(c, Down)) + Ones(Opens(c, Left)) + Ones(Opens(c, Right))
  }

  /** The terminal whose single connector points toward d. */
  function TerminalToward(d: Dir): (c: Code)
    ensures FamilyOf(c) == Terminal
    ensures forall e :: Opens(c, e) <==> e == d
  {
    match d
    case Up => FC
    case Down => FB
    case Left => FE
    case Right => FD
  }

  /** The code with exactly the given connectors, if there is one. */
  function CodeWith(up: bool, down: bool, left: bool, right: bool): Option<Code>
  {
    match (up, down, left, right)
    case (true, false, false, false) => Some(FC)
    case (false, true, false, false) => Some(FB)
    case (false, false, true, false) => Some(FE)
    case (false, false, false, true) => Some(FD)
    case (true, false, true, true) => Some(BC)
    case (false, true, true, true) => Some(BB)
    case (true, true, true, false) => Some(BE)
    case (true, true, false, true) => Some(BD)
    case (true, false, true, false) => Some(VC)
    case (false, true, false, true) => Some(VB)
    case (false, true, true, false) => Some(VE)
    case (true, false, false, true) => Some(VD)
    case (false, false, true, true) => Some(LH)
    case (true, true, false, false) => Some(LV)
    case _ => None
  }

  /** Reading a code's connectors back gives the code itself. */
  lemma CodeWithConnectors(c: Code)
    ensures CodeWith(Opens(c, Up), Opens(c, Down), Opens(c, Left), Opens(c, Right)) == Some(c)
  {
  }

  /** A code is determined by the set of directions it opens toward. */
  lemma SameConnectorsSameCode(x: Code, y: Code)
    requires Opens(x, Up) == Opens(y, Up) && Opens(x, Down) == Opens(y, Down)
    requires Opens(x, Left) == Opens(y, Left) && Opens(x, Right) == Opens(y, Right)
    ensures x == y
  {
    CodeWithConnectors(x);
    CodeWithConnectors(y);
  }

  /** No element occurs twice: each one is absent from the rest. */
  predicate Distinct<T(==)>(s: seq<T>)
  {
    |s| == 0 || (s[0] !in s[1..] && Distinct(s[1..]))
  }

  /** Distinct says that the elements at two different positions differ. */
  lemma {:induction false} DistinctMeaning<T>(s: seq<T>)
    ensures Distinct(s) <==> forall i, j :: 0 <= i < j < |s| ==> s[i] != s[j]
  {
    if |s| > 0 {
      DistinctMeaning(s[1..]);
      assert forall k :: 0 <= k < |s[1..]| ==> s[1..][k] == s[k + 1];
      if Distinct(s) {
        forall i, j | 0 <= i < j < |s| ensures s[i] != s[j] {
          if i > 0 {
            assert s[1..][i - 1] == s[i] && s[1..][j - 1] == s[j];
          } else {
            assert s[j] == s[1..][j - 1];
          }
        }
      }
      if forall i, j :: 0 <= i < j < |s| ==> s[i] != s[j] {
        forall i, j | 0 <= i < j < |s[1..]| ensures s[1..][i] != s[1..][j] {
          assert s[1..][i] == s[i + 1] && s[1..][j] == s[j + 1];
        }
        forall k | 0 <= k < |s[1..]| ensures s[1..][k] != s[0] {
          assert s[1..][k] == s[k + 1];
        }
      }
    }
  }

  /**
   * get_all_rotations: every orientation of the piece's family, in the
   * table's fixed order (C, B, E, D; or H, V for straights).
   */
  function AllRotations(c: Code): (r: seq<Code>)
    ensures forall x :: x in r <==> FamilyOf(x) == FamilyOf(c)
    ensures |r| == if FamilyOf(c) == Straight then 2 else 4
    ensures Distinct(r)
  {
    match FamilyOf(c)
    case Terminal => [FC, FB, FE, FD]
    case Tee => [BC, BB, BE, BD]
    case Elbow => [VC, VB, VE, VD]
    case Straight => [LH, LV]
  }

  /** The two-letter text of a code. */
  function Name(c: Code): string
  {
    match c
    case FC => "FC" case FB => "FB" case FE => "FE" case FD => "FD"
    case BC => "BC" case BB => "BB" case BE => "BE" case BD => "BD"
    case VC => "VC" case VB => "VB" case VE => "VE" case VD => "VD"
    case LH => "LH" case LV => "LV"
  }

  /** Reads a code back from its text; any other string is not a piece. */
  function FromName(s: string): (r: Option<Code>)
    ensures r.Some? ==> Name(r.value) == s
  {
    if s == "FC" then Some(FC) else if s == "FB" then Some(FB)
    else if s == "FE" then Some(FE) else if s == "FD" then Some(FD)
    else if s == "BC" then Some(BC) else if s == "BB" then Some(BB)
    else if s == "BE" then Some(BE) else if s == "BD" then Some(BD)
    else if s == "VC" then Some(VC) else if s == "VB" then Some(VB)
    else if s == "VE" then Some(VE) else if s == "VD" then Some(VD)
    else if s == "LH" then Some(LH) else if s == "LV" then Some(LV)
    else None
  }

  lemma NameRoundTrip(c: Code)
    ensures FromName(Name(c)) == Some(c)
    ensures |Name(c)| == 2
  {
  }
}
