/**
 * The double loop of get_valid_rotations_neighbors in base/pipe.py: every
 * code of the first collected list other than the piece's own, appended
 * once for each list that holds it.
 */
module BaseCopies {
  import opened Wrappers
  import opened Pieces
  import opened Candidates

  /** n copies of x. */
  function Repeat(x: Code, n: nat): (r: seq<Code>)
    ensures |r| == n && forall k :: 0 <= k < n ==> r[k] == x
  {
    seq(n, _ => x)
  }

  /** How many of the lists hold x; a None holds nothing. */
  function Holders(x: Code, ls: seq<Option<seq<Code>>>): nat
    decreases |ls|
  {
    if |ls| == 0 then 0
    else (if ls[0].Some? && x in ls[0].value then 1 else 0) + Holders(x, ls[1..])
  }

  /**
   * The double loop over the first list: each of its codes other than
   * the piece's own, appended once for every list that holds it.
   */
  function Copies(first: seq<Code>, ls: seq<Option<seq<Code>>>, p: Code): seq<Code>
    decreases |first|
  {
    if |first| == 0 then []
    else
      var x := first[0];
      (if x == p then [] else Repeat(x, Holders(x, ls))) + Copies(first[1..], ls, p)
  }

  predicate AllSome(ls: seq<Option<seq<Code>>>)
  {
    forall k :: 0 <= k < |ls| ==> ls[k].Some?
  }

  /**
   * The loop of get_valid_rotations_neighbors over the collected lists.
   * `for rot in None` raises when the first list is the lower table's
   * None, and `rot in None` raises when a later one is and the first list
   * has a code to test.
   */
  function FirstListCopies(ls: seq<Option<seq<Code>>>, p: Code): (r: Result<seq<Code>, Failure>)
  {
    if |ls| == 0 then Ok([])
    else if ls[0].None? then Err(LowerTableNone)
    else if |ls[0].value| > 0 && !AllSome(ls) then Err(LowerTableNone)
    else Ok(Copies(ls[0].value, ls, p))
  }

  /**
   * The neighbour step is no intersection: with no fixed neighbour it
   * gives nothing; it fails only on a None table; it keeps exactly the
   * codes of the first list other than the piece's own; and each one
   * occurs as often in the result as in the first list times the number
   * of lists that hold it.
   */
  lemma FirstListCopiesMeaning(ls: seq<Option<seq<Code>>>, p: Code)
    ensures |ls| == 0 ==> FirstListCopies(ls, p) == Ok([])
    ensures FirstListCopies(ls, p).Err? ==> exists k :: 0 <= k < |ls| && ls[k].None?
    ensures AllSome(ls) ==> FirstListCopies(ls, p).Ok?
    ensures FirstListCopies(ls, p).Ok? && |ls| > 0 ==>
      forall x :: x in FirstListCopies(ls, p).value <==> x in ls[0].value && x != p
  {
    if |ls| > 0 && ls[0].Some? {
      var first := ls[0].value;
      forall x
        ensures x in Copies(first, ls, p) <==> x in first && x != p
      {
        CopiesMembers(first, ls, p, x);
        if x in first {
          HoldersOfFirst(x, ls);
        }
      }
    }
  }

  /**
   * Each code occurs in the result as often as in the first list times
   * the number of lists that hold it.
   */
  lemma FirstListCopiesCount(ls: seq<Option<seq<Code>>>, p: Code, x: Code)
    requires FirstListCopies(ls, p).Ok? && |ls| > 0
    ensures multiset(FirstListCopies(ls, p).value)[x] ==
      if x == p then 0 else multiset(ls[0].value)[x] * Holders(x, ls)
  {
    CopiesCount(ls[0].value, ls, p, x);
    TimesIsProduct(multiset(ls[0].value)[x], Holders(x, ls));
  }

  /** x is copied when the first list has it, it is not the piece's code, and some list holds it. */
  lemma CopiesMembers(first: seq<Code>, ls: seq<Option<seq<Code>>>, p: Code, x: Code)
    ensures x in Copies(first, ls, p) <==> x in first && x != p && Holders(x, ls) > 0
  {
    CopiesCount(first, ls, p, x);
    TimesPositive(multiset(first)[x], Holders(x, ls));
  }

  /** The multiplicity of x in Copies. */
  lemma {:induction false} CopiesCount(first: seq<Code>, ls: seq<Option<seq<Code>>>, p: Code, x: Code)
    ensures multiset(Copies(first, ls, p))[x] == if x == p then 0 else Times(multiset(first)[x], Holders(x, ls))
    decreases |first|
  {
    if |first| > 0 {
      CopiesCount(first[1..], ls, p, x);
      CopiesHead(first, ls, p, x);
    }
  }

  /** The copies of the first code, then those of the rest. */
  lemma CopiesHead(first: seq<Code>, ls: seq<Option<seq<Code>>>, p: Code, x: Code)
    requires |first| > 0
    ensures multiset(first)[x] == (if x == first[0] then 1 else 0) + multiset(first[1..])[x]
    ensures multiset(Copies(first, ls, p))[x] ==
      (if x == first[0] && x != p then Holders(x, ls) else 0) + multiset(Copies(first[1..], ls, p))[x]
  {
    var y := first[0];
    var n := if y == p then 0 else Holders(y, ls);
    assert first == [y] + first[1..];
    assert Copies(first, ls, p) == Repeat(y, n) + Copies(first[1..], ls, p);
    RepeatCount(y, n, x);
  }

  /** m * h as repeated addition, so that the count above needs no multiplication. */
  function Times(m: nat, h: nat): nat
  {
    if m == 0 then 0 else Times(m - 1, h) + h
  }

  lemma {:induction false} TimesIsProduct(m: nat, h: nat)
    ensures Times(m, h) == m * h
  {
    if m > 0 {
      TimesIsProduct(m - 1, h);
    }
  }

  lemma {:induction false} TimesPositive(m: nat, h: nat)
    ensures Times(m, h) > 0 <==> m > 0 && h > 0
  {
    if m > 0 {
      TimesPositive(m - 1, h);
    }
  }

  lemma {:induction false} RepeatCount(y: Code, n: nat, x: Code)
    ensures multiset(Repeat(y, n))[x] == if x == y then n else 0
    decreases n
  {
    if n > 0 {
      RepeatCount(y, n - 1, x);
      assert Repeat(y, n) == Repeat(y, n - 1) + [y];
    }
  }

  /** The first list itself holds each of its codes. */
  lemma HoldersOfFirst(x: Code, ls: seq<Option<seq<Code>>>)
    requires |ls| > 0 && ls[0].Some? && x in ls[0].value
    ensures Holders(x, ls) > 0
  {
  }

  // ---------------------------------------------------------------------
  // The double loop itself
  // ---------------------------------------------------------------------

  /**
   * The double loop of get_valid_rotations_neighbors over the collected
   * lists, raising at the first None it tests.
   */
  method CopyLoop(ls: seq<Option<seq<Code>>>, piece: Code) returns (r: Result<seq<Code>, Failure>)
    ensures r == FirstListCopies(ls, piece)
  {
    if |ls| == 0 {
      return Ok([]);
    }
    if ls[0].None? {
      return Err(LowerTableNone);
    }
    r := FirstListLoop(ls[0].value, ls, piece);
  }

  /** The outer loop, over the codes of the first list. */
  method FirstListLoop(first: seq<Code>, ls: seq<Option<seq<Code>>>, piece: Code) returns (r: Result<seq<Code>, Failure>)
    ensures r == if |first| > 0 && !AllSome(ls) then Err(LowerTableNone) else Ok(Copies(first, ls, piece))
  {
    var out: seq<Code> := [];
    for a := 0 to |first|
      invariant a > 0 ==> AllSome(ls)
      invariant Copies(first, ls, piece) == out + Copies(first[a..], ls, piece)
    {
      var copies := RotCopies(ls, first[a], piece);
      if copies.Err? {
        return Err(LowerTableNone);
      }
      CopiesFrom(first, ls, piece, a);
      out := out + copies.value;
    }
    assert first[|first|..] == [];
    assert out + Copies(first[|first|..], ls, piece) == out;
    return Ok(out);
  }

  /** The copies from position a on: those of first[a], then those after it. */
  lemma CopiesFrom(first: seq<Code>, ls: seq<Option<seq<Code>>>, p: Code, a: int)
    requires 0 <= a < |first|
    ensures Copies(first[a..], ls, p) ==
      (if first[a] == p then [] else Repeat(first[a], Holders(first[a], ls))) + Copies(first[a + 1..], ls, p)
  {
    assert first[a..][1..] == first[a + 1..];
  }

  /** The inner loop: rot once for every list that holds it, unless it is the piece's own code. */
  method RotCopies(ls: seq<Option<seq<Code>>>, rot: Code, piece: Code) returns (r: Result<seq<Code>, Failure>)
    ensures r.Ok? <==> AllSome(ls)
    ensures r.Ok? ==> r.value == if rot == piece then [] else Repeat(rot, Holders(rot, ls))
  {
    var out: seq<Code> := [];
    var count := 0;
    var i := 0;
    while i < |ls|
      invariant 0 <= i <= |ls|
      invariant forall k :: 0 <= k < i ==> ls[k].Some?
      invariant Holders(rot, ls) == count + Holders(rot, ls[i..])
      invariant out == if rot == piece then [] else Repeat(rot, count)
    {
      if ls[i].None? {
        return Err(LowerTableNone);
      }
      assert ls[i..][1..] == ls[i + 1..];
      if rot in ls[i].value {
        if rot != piece {
          assert Repeat(rot, count + 1) == Repeat(rot, count) + [rot];
          out := out + [rot];
        }
        count := count + 1;
      }
      i := i + 1;
    }
    return Ok(out);
  }
}
