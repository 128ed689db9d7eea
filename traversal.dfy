/**
 * Following connectors across the board: get_reachable_explored and the
 * breadth-first search of goal_test (final solver and diagonal draft), and
 * get_reachable with is_loop (diagonal draft).
 */
module Traversal {
  import opened Wrappers
  import opened Pieces
  import opened Grids

  /** The cell one step from c toward d. */
  function Toward(c: Cell, d: Dir): Cell
  {
    match d
    case Up => (c.0 - 1, c.1)
    case Down => (c.0 + 1, c.1)
    case Left => (c.0, c.1 - 1)
    case Right => (c.0, c.1 + 1)
  }

  /** b is the neighbour of a on a side that code x opens toward. */
  predicate Leads(x: Code, a: Cell, b: Cell)
  {
    || (Opens(x, Up) && b == Toward(a, Up))
    || (Opens(x, Down) && b == Toward(a, Down))
    || (Opens(x, Left) && b == Toward(a, Left))
    || (Opens(x, Right) && b == Toward(a, Right))
  }

  /** The closing comprehension that keeps only positions inside the grid. */
  function KeepInGrid(cs: seq<Cell>, rows: int, cols: int): (r: seq<Cell>)
    ensures CellsInGrid(r, rows, cols)
  {
    if |cs| == 0 then []
    else (if InGrid(rows, cols, cs[0].0, cs[0].1) then [cs[0]] else []) + KeepInGrid(cs[1..], rows, cols)
  }

  /** The filter keeps exactly the positions inside the grid. */
  lemma {:induction false} KeepInGridMembers(cs: seq<Cell>, rows: int, cols: int)
    ensures forall c :: c in KeepInGrid(cs, rows, cols) <==> c in cs && InGrid(rows, cols, c.0, c.1)
  {
    if |cs| > 0 {
      KeepInGridMembers(cs[1..], rows, cols);
      assert forall c :: c in cs <==> c == cs[0] || c in cs[1..];
    }
  }

  /** A one-cell list when b holds, else the empty list. */
  function OnlyIf(b: bool, c: Cell): (r: seq<Cell>)
    ensures forall d :: d in r <==> b && d == c
  {
    if b then [c] else []
  }

  /**
   * The four guarded appends of get_reachable_explored, in their order:
   * up, down, right, left. Each guard's list of codes is the set of codes
   * that open that way (Pieces.OpensAsReachableLists), written here as Opens.
   */
  function ExploredSides(g: Grid, e: Explored, rows: int, cols: int, row: int, col: int): seq<Cell>
    requires Shaped(g, rows, cols) && Shaped(e, rows, cols) && InGrid(rows, cols, row, col)
  {
    var x := g[row][col];
    OnlyIf(Opens(x, Up) && row > 0 && e[row - 1][col].Some?, (row - 1, col)) +
    OnlyIf(Opens(x, Down) && row < rows - 1 && e[row + 1][col].Some?, (row + 1, col)) +
    OnlyIf(Opens(x, Right) && col < cols - 1 && e[row][col + 1].Some?, (row, col + 1)) +
    OnlyIf(Opens(x, Left) && col > 0 && e[row][col - 1].Some?, (row, col - 1))
  }

  /**
   * get_reachable_explored: the guarded appends, then the in-grid filter
   * (which the guards already make redundant).
   */
  function ReachableExplored(g: Grid, e: Explored, rows: int, cols: int, row: int, col: int): (r: seq<Cell>)
    requires Shaped(g, rows, cols) && Shaped(e, rows, cols) && InGrid(rows, cols, row, col)
    ensures CellsInGrid(r, rows, cols)
  {
    KeepInGrid(ExploredSides(g, e, rows, cols, row, col), rows, cols)
  }

  /**
   * get_reachable_explored returns exactly the explored in-grid neighbours
   * on the sides the cell's code opens toward; whether the neighbour opens
   * back is not looked at.
   */
  lemma ReachableExploredMeaning(g: Grid, e: Explored, rows: int, cols: int, row: int, col: int)
    requires Shaped(g, rows, cols) && Shaped(e, rows, cols) && InGrid(rows, cols, row, col)
    ensures forall c :: c in ReachableExplored(g, e, rows, cols, row, col) <==>
      InGrid(rows, cols, c.0, c.1) && Leads(g[row][col], (row, col), c) && e[c.0][c.1].Some?
  {
    var s := ExploredSides(g, e, rows, cols, row, col);
    ExploredSidesMembers(g, e, rows, cols, row, col);
    assert CellsInGrid(s, rows, cols);
    KeepAllInGrid(s, rows, cols);
  }

  /** The guarded appends list exactly the explored cells the code leads to. */
  lemma ExploredSidesMembers(g: Grid, e: Explored, rows: int, cols: int, row: int, col: int)
    requires Shaped(g, rows, cols) && Shaped(e, rows, cols) && InGrid(rows, cols, row, col)
    ensures forall c :: c in ExploredSides(g, e, rows, cols, row, col) <==>
      InGrid(rows, cols, c.0, c.1) && Leads(g[row][col], (row, col), c) && e[c.0][c.1].Some?
  {
    var x := g[row][col];
    var a := (row, col);
    var u := row > 0 && e[row - 1][col].Some?;
    var d := row < rows - 1 && e[row + 1][col].Some?;
    var r := col < cols - 1 && e[row][col + 1].Some?;
    var l := col > 0 && e[row][col - 1].Some?;
    forall c: Cell
      ensures c in ExploredSides(g, e, rows, cols, row, col) <==>
        InGrid(rows, cols, c.0, c.1) && Leads(x, a, c) && e[c.0][c.1].Some?
    {
      FourSides(x, row, col, u, d, r, l, c);
      GuardsMatch(e, rows, cols, row, col, c);
      var here := InGrid(rows, cols, c.0, c.1) && e[c.0][c.1].Some?;
      GuardsAgree(Opens(x, Up), Opens(x, Down), Opens(x, Right), Opens(x, Left), a, c, u, d, r, l, here);
    }
  }

  /** Each side's guard of get_reachable_explored says whether that neighbour is an explored cell. */
  lemma GuardsMatch(e: Explored, rows: int, cols: int, row: int, col: int, c: Cell)
    requires Shaped(e, rows, cols) && InGrid(rows, cols, row, col)
    ensures var here := InGrid(rows, cols, c.0, c.1) && e[c.0][c.1].Some?;
      && (c == Toward((row, col), Up) ==> ((row > 0 && e[row - 1][col].Some?) <==> here))
      && (c == Toward((row, col), Down) ==> ((row < rows - 1 && e[row + 1][col].Some?) <==> here))
      && (c == Toward((row, col), Right) ==> ((col < cols - 1 && e[row][col + 1].Some?) <==> here))
      && (c == Toward((row, col), Left) ==> ((col > 0 && e[row][col - 1].Some?) <==> here))
  {
  }

  /**
   * When each side's guard says exactly whether c is an explored cell of
   * the grid, the guarded sides are the explored cells c leads to.
   */
  lemma GuardsAgree(ou: bool, od: bool, or: bool, ol: bool, a: Cell, c: Cell, u: bool, d: bool, r: bool, l: bool, here: bool)
    requires c == Toward(a, Up) ==> (u <==> here)
    requires c == Toward(a, Down) ==> (d <==> here)
    requires c == Toward(a, Right) ==> (r <==> here)
    requires c == Toward(a, Left) ==> (l <==> here)
    ensures (|| (ou && u && c == Toward(a, Up)) || (od && d && c == Toward(a, Down))
             || (or && r && c == Toward(a, Right)) || (ol && l && c == Toward(a, Left)))
      <==> here && (|| (ou && c == Toward(a, Up)) || (od && c == Toward(a, Down))
                    || (ol && c == Toward(a, Left)) || (or && c == Toward(a, Right)))
  {
  }

  /** Membership in four guarded one-cell lists, one per side of (row, col). */
  lemma FourSides(x: Code, row: int, col: int, u: bool, d: bool, r: bool, l: bool, c: Cell)
    ensures c in OnlyIf(Opens(x, Up) && u, (row - 1, col)) + OnlyIf(Opens(x, Down) && d, (row + 1, col)) +
                 OnlyIf(Opens(x, Right) && r, (row, col + 1)) + OnlyIf(Opens(x, Left) && l, (row, col - 1))
      <==> || (Opens(x, Up) && u && c == Toward((row, col), Up))
           || (Opens(x, Down) && d && c == Toward((row, col), Down))
           || (Opens(x, Right) && r && c == Toward((row, col), Right))
           || (Opens(x, Left) && l && c == Toward((row, col), Left))
  {
  }

  /** The in-grid filter changes nothing when every position is inside. */
  lemma {:induction false} KeepAllInGrid(cs: seq<Cell>, rows: int, cols: int)
    requires CellsInGrid(cs, rows, cols)
    ensures KeepInGrid(cs, rows, cols) == cs
  {
    if |cs| > 0 {
      assert CellsInGrid(cs[1..], rows, cols) by {
        forall k | 0 <= k < |cs[1..]| ensures InGrid(rows, cols, cs[1..][k].0, cs[1..][k].1) {
          assert cs[1..][k] == cs[k + 1];
        }
      }
      KeepAllInGrid(cs[1..], rows, cols);
      assert cs == [cs[0]] + cs[1..];
    }
  }

  /**
   * The four unguarded appends of get_reachable, in their order, with the
   * code lists written as Opens (Pieces.OpensAsReachableLists).
   */
  function ConnectorSides(g: Grid, rows: int, cols: int, row: int, col: int): seq<Cell>
    requires Shaped(g, rows, cols) && InGrid(rows, cols, row, col)
  {
    var x := g[row][col];
    OnlyIf(Opens(x, Up), (row - 1, col)) +
    OnlyIf(Opens(x, Down), (row + 1, col)) +
    OnlyIf(Opens(x, Right), (row, col + 1)) +
    OnlyIf(Opens(x, Left), (row, col - 1))
  }

  /** get_reachable: the unguarded appends, then the in-grid filter. */
  function Neighbours(g: Grid, rows: int, cols: int, row: int, col: int): (r: seq<Cell>)
    requires Shaped(g, rows, cols) && InGrid(rows, cols, row, col)
    ensures CellsInGrid(r, rows, cols)
  {
    KeepInGrid(ConnectorSides(g, rows, cols, row, col), rows, cols)
  }

  /**
   * get_reachable returns exactly the in-grid neighbours on the sides the
   * cell's code opens toward, explored or not.
   */
  lemma NeighboursMeaning(g: Grid, rows: int, cols: int, row: int, col: int)
    requires Shaped(g, rows, cols) && InGrid(rows, cols, row, col)
    ensures forall c :: c in Neighbours(g, rows, cols, row, col) <==> InGrid(rows, cols, c.0, c.1) && Leads(g[row][col], (row, col), c)
  {
    var x := g[row][col];
    var a := (row, col);
    var s := ConnectorSides(g, rows, cols, row, col);
    KeepInGridMembers(s, rows, cols);
    forall c: Cell
      ensures c in s <==> Leads(x, a, c)
    {
      FourSides(x, row, col, true, true, true, true, c);
    }
  }

  // ---------------------------------------------------------------------
  // Paths
  // ---------------------------------------------------------------------

  /** Where a search may go next from a cell. */
  type Adjacency = Cell -> seq<Cell>

  /** The links bfs follows: get_reachable_explored of one board. */
  function ExploredLinks(g: Grid, e: Explored, rows: int, cols: int): Adjacency
  {
    (c: Cell) =>
      if Shaped(g, rows, cols) && Shaped(e, rows, cols) && InGrid(rows, cols, c.0, c.1)
      then ReachableExplored(g, e, rows, cols, c.0, c.1) else []
  }

  /** The links is_loop follows: get_reachable of one board. */
  function ConnectorLinks(g: Grid, rows: int, cols: int): Adjacency
  {
    (c: Cell) =>
      if Shaped(g, rows, cols) && InGrid(rows, cols, c.0, c.1) then Neighbours(g, rows, cols, c.0, c.1) else []
  }

  ghost predicate StaysInGrid(adj: Adjacency, rows: int, cols: int)
  {
    forall c: Cell :: CellsInGrid(adj(c), rows, cols)
  }

  lemma ExploredLinksStayInGrid(g: Grid, e: Explored, rows: int, cols: int)
    ensures StaysInGrid(ExploredLinks(g, e, rows, cols), rows, cols)
  {
    var adj := ExploredLinks(g, e, rows, cols);
    forall c: Cell ensures CellsInGrid(adj(c), rows, cols) {
      if Shaped(g, rows, cols) && Shaped(e, rows, cols) && InGrid(rows, cols, c.0, c.1) {
        assert adj(c) == ReachableExplored(g, e, rows, cols, c.0, c.1);
      }
    }
  }

  lemma ConnectorLinksStayInGrid(g: Grid, rows: int, cols: int)
    ensures StaysInGrid(ConnectorLinks(g, rows, cols), rows, cols)
  {
    var adj := ConnectorLinks(g, rows, cols);
    forall c: Cell ensures CellsInGrid(adj(c), rows, cols) {
      if Shaped(g, rows, cols) && InGrid(rows, cols, c.0, c.1) {
        assert adj(c) == Neighbours(g, rows, cols, c.0, c.1);
      }
    }
  }

  /** A walk along links. */
  ghost predicate Path(adj: Adjacency, p: seq<Cell>)
  {
    |p| > 0 && forall k :: 0 <= k < |p| - 1 ==> p[k + 1] in adj(p[k])
  }

  /** b can be reached from a by following links. */
  ghost predicate Reaches(adj: Adjacency, a: Cell, b: Cell)
  {
    exists p :: Path(adj, p) && p[0] == a && p[|p| - 1] == b
  }

  /** No link leads out of v. */
  ghost predicate Closed(adj: Adjacency, v: set<Cell>)
  {
    forall c, n :: c in v && n in adj(c) ==> n in v
  }

  lemma ReachesItself(adj: Adjacency, a: Cell)
    ensures Reaches(adj, a, a)
  {
    assert Path(adj, [a]);
  }

  lemma ReachesStep(adj: Adjacency, a: Cell, b: Cell, c: Cell)
    requires Reaches(adj, a, b) && c in adj(b)
    ensures Reaches(adj, a, c)
  {
    var p :| Path(adj, p) && p[0] == a && p[|p| - 1] == b;
    var q := p + [c];
    assert forall k :: 0 <= k < |p| ==> q[k] == p[k];
    assert Path(adj, q);
  }

  /** A closed set holding a holds everything reachable from a. */
  lemma ClosedHoldsReachable(adj: Adjacency, v: set<Cell>, a: Cell, b: Cell)
    requires Closed(adj, v) && a in v && Reaches(adj, a, b)
    ensures b in v
  {
    var p :| Path(adj, p) && p[0] == a && p[|p| - 1] == b;
    var k := 0;
    while k < |p| - 1
      invariant 0 <= k < |p| && p[k] in v
    {
      assert p[k + 1] in adj(p[k]);
      k := k + 1;
    }
  }

  // ---------------------------------------------------------------------
  // bfs
  // ---------------------------------------------------------------------

  /** A queue entry: a cell and the cell it was reached from. */
  type Entry = (Cell, Option<Cell>)

  function Heads(q: seq<Entry>): (r: seq<Cell>)
    ensures |r| == |q| && forall k :: 0 <= k < |q| ==> r[k] == q[k].0
  {
    seq(|q|, k requires 0 <= k < |q| => q[k].0)
  }

  function AllCells(rows: int, cols: int): set<Cell>
  {
    set i, j | 0 <= i < rows && 0 <= j < cols :: (i, j)
  }

  /**
   * The inner loop of bfs over the reachable positions of cur: every one
   * other than prev is queued with cur as its predecessor, unless it is
   * already visited, which reports a cycle (None).
   */
  function Enqueue(next: seq<Cell>, cur: Cell, prev: Option<Cell>, visited: set<Cell>, q: seq<Entry>): Option<seq<Entry>>
    decreases |next|
  {
    if |next| == 0 then Some(q)
    else
      var n := next[0];
      if Some(n) != prev then
        if n in visited then None
        else Enqueue(next[1..], cur, prev, visited, q + [(n, Some(cur))])
      else Enqueue(next[1..], cur, prev, visited, q)
  }

  /**
   * Enqueue reports a cycle exactly when a link other than the one back to
   * the predecessor is visited; otherwise it keeps the queue in front and
   * appends every other link, each behind cur.
   */
  lemma {:induction false} EnqueueMeaning(next: seq<Cell>, cur: Cell, prev: Option<Cell>, visited: set<Cell>, q: seq<Entry>)
    ensures var r := Enqueue(next, cur, prev, visited, q);
      && (r.None? <==> exists k :: 0 <= k < |next| && Some(next[k]) != prev && next[k] in visited)
      && (r.Some? ==> |q| <= |r.value| && r.value[..|q|] == q)
      && (r.Some? ==> forall k :: |q| <= k < |r.value| ==> r.value[k].0 in next && r.value[k].1 == Some(cur))
      && (r.Some? ==> forall n :: n in next && Some(n) != prev ==> (n, Some(cur)) in r.value)
    decreases |next|
  {
    if |next| > 0 {
      var n := next[0];
      assert forall k :: 0 <= k < |next[1..]| ==> next[1..][k] == next[k + 1];
      assert forall c :: c in next <==> c == n || c in next[1..];
      if Some(n) != prev {
        if n !in visited {
          EnqueueMeaning(next[1..], cur, prev, visited, q + [(n, Some(cur))]);
          var r := Enqueue(next[1..], cur, prev, visited, q + [(n, Some(cur))]);
          assert r.Some? ==> r.value[..|q|] == (q + [(n, Some(cur))])[..|q|] && r.value[|q|] == (n, Some(cur));
        }
      } else {
        EnqueueMeaning(next[1..], cur, prev, visited, q);
      }
    }
  }

  /**
   * The while loop of bfs: pop an entry; skip a visited cell; otherwise
   * mark it and queue its links. None when a cycle was reported, else the
   * visited cells once the queue is empty.
   */
  function BfsLoop(adj: Adjacency, rows: int, cols: int, visited: set<Cell>, q: seq<Entry>): Option<set<Cell>>
    requires StaysInGrid(adj, rows, cols) && visited <= AllCells(rows, cols)
    requires CellsInGrid(Heads(q), rows, cols)
    decreases AllCells(rows, cols) - visited, |q|
  {
    if |q| == 0 then Some(visited)
    else
      var c := q[0].0;
      if c in visited then
        assert CellsInGrid(Heads(q[1..]), rows, cols) by {
          assert forall k :: 0 <= k < |q[1..]| ==> Heads(q[1..])[k] == Heads(q)[k + 1];
        }
        BfsLoop(adj, rows, cols, visited, q[1..])
      else
        assert InGrid(rows, cols, c.0, c.1) && Heads(q)[0] == c;
        assert c in AllCells(rows, cols);
        match Enqueue(adj(c), c, q[0].1, visited + {c}, q[1..])
        case None => None
        case Some(q') =>
          assert CellsInGrid(Heads(q'), rows, cols) by {
            EnqueueMeaning(adj(c), c, q[0].1, visited + {c}, q[1..]);
            forall k | 0 <= k < |q'| ensures InGrid(rows, cols, Heads(q')[k].0, Heads(q')[k].1) {
              if k < |q| - 1 {
                assert q'[k] == q'[..|q| - 1][k] == q[1..][k] == q[k + 1];
                assert Heads(q)[k + 1] == q'[k].0;
              } else {
                assert q'[k].0 in adj(c);
                assert CellsInGrid(adj(c), rows, cols);
              }
            }
          }
          BfsLoop(adj, rows, cols, visited + {c}, q')
  }

  /**
   * bfs from source on an explored grid: the loop ends without reporting a
   * cycle, and every explored cell was visited.
   */
  function Bfs(g: Grid, e: Explored, rows: int, cols: int, source: Cell): bool
    requires Shaped(g, rows, cols) && Shaped(e, rows, cols) && InGrid(rows, cols, source.0, source.1)
  {
    ExploredLinksStayInGrid(g, e, rows, cols);
    match BfsLoop(ExploredLinks(g, e, rows, cols), rows, cols, {}, [(source, None)])
    case None => false
    case Some(v) => forall i, j :: 0 <= i < rows && 0 <= j < cols && e[i][j].Some? ==> (i, j) in v
  }

  /** What Bfs answers, in terms of the run of its loop. */
  lemma BfsAnswer(g: Grid, e: Explored, rows: int, cols: int, source: Cell)
    requires Shaped(g, rows, cols) && Shaped(e, rows, cols) && InGrid(rows, cols, source.0, source.1)
    requires StaysInGrid(ExploredLinks(g, e, rows, cols), rows, cols)
    ensures var r := BfsLoop(ExploredLinks(g, e, rows, cols), rows, cols, {}, [(source, None)]);
      Bfs(g, e, rows, cols, source) <==>
        r.Some? && forall i, j :: 0 <= i < rows && 0 <= j < cols && e[i][j].Some? ==> (i, j) in r.value
  {
  }

  // ---------------------------------------------------------------------
  // What both searches keep true
  // ---------------------------------------------------------------------

  ghost predicate AllReached(adj: Adjacency, src: Cell, visited: set<Cell>)
  {
    forall c :: c in visited ==> Reaches(adj, src, c)
  }

  ghost predicate QueueReached(adj: Adjacency, src: Cell, cells: seq<Cell>)
  {
    forall k :: 0 <= k < |cells| ==> Reaches(adj, src, cells[k])
  }

  /** Every link out of a visited cell ends in a visited or a pending cell. */
  ghost predicate ClosedUpTo(adj: Adjacency, visited: set<Cell>, pending: seq<Cell>)
  {
    forall c, n :: c in visited && n in adj(c) ==> n in visited || n in pending
  }

  /** The queue after popping its head and appending links of that head. */
  ghost predicate Successor(adj: Adjacency, cells: seq<Cell>, cells': seq<Cell>)
  {
    && |cells| > 0
    && |cells| - 1 <= |cells'|
    && cells'[..|cells| - 1] == cells[1..]
    && forall k :: |cells| - 1 <= k < |cells'| ==> cells'[k] in adj(cells[0])
  }

  lemma QueueStep(adj: Adjacency, rows: int, cols: int, src: Cell, cells: seq<Cell>, cells': seq<Cell>)
    requires StaysInGrid(adj, rows, cols) && CellsInGrid(cells, rows, cols)
    requires QueueReached(adj, src, cells) && Successor(adj, cells, cells')
    ensures CellsInGrid(cells', rows, cols) && QueueReached(adj, src, cells')
  {
    var c := cells[0];
    assert Reaches(adj, src, c);
    assert CellsInGrid(adj(c), rows, cols);
    forall k | 0 <= k < |cells'| ensures InGrid(rows, cols, cells'[k].0, cells'[k].1) && Reaches(adj, src, cells'[k]) {
      if k < |cells| - 1 {
        assert cells'[k] == cells'[..|cells| - 1][k] == cells[k + 1];
      } else {
        ReachesStep(adj, src, c, cells'[k]);
      }
    }
  }

  lemma VisitStep(adj: Adjacency, src: Cell, visited: set<Cell>, cells: seq<Cell>)
    requires AllReached(adj, src, visited) && QueueReached(adj, src, cells) && |cells| > 0
    ensures AllReached(adj, src, visited + {cells[0]})
  {
  }

  lemma ClosureStep(adj: Adjacency, visited: set<Cell>, cells: seq<Cell>, cells': seq<Cell>)
    requires ClosedUpTo(adj, visited, cells) && |cells| > 0
    requires |cells| - 1 <= |cells'| && cells'[..|cells| - 1] == cells[1..]
    requires forall n :: n in adj(cells[0]) ==> n in visited + {cells[0]} || n in cells'
    ensures ClosedUpTo(adj, visited + {cells[0]}, cells')
  {
    forall x, n | x in visited + {cells[0]} && n in adj(x) ensures n in visited + {cells[0]} || n in cells' {
      if x != cells[0] && n !in visited + {cells[0]} {
        var k :| 0 <= k < |cells| && cells[k] == n;
        assert cells'[k - 1] == cells'[..|cells| - 1][k - 1] == n;
      }
    }
  }

  lemma SkipStep(adj: Adjacency, src: Cell, visited: set<Cell>, cells: seq<Cell>)
    requires ClosedUpTo(adj, visited, cells) && QueueReached(adj, src, cells) && |cells| > 0 && cells[0] in visited
    ensures ClosedUpTo(adj, visited, cells[1..]) && QueueReached(adj, src, cells[1..])
  {
    assert forall k :: 0 <= k < |cells[1..]| ==> cells[1..][k] == cells[k + 1];
    forall x, n | x in visited && n in adj(x) ensures n in visited || n in cells[1..] {
      if n !in visited {
        var k :| 0 <= k < |cells| && cells[k] == n;
        assert cells[1..][k - 1] == n;
      }
    }
  }

  // ---------------------------------------------------------------------
  // What bfs computes
  // ---------------------------------------------------------------------

  /** The recorded predecessor of every queued entry has been visited. */
  predicate PrevsVisited(q: seq<Entry>, visited: set<Cell>)
  {
    forall k :: 0 <= k < |q| && q[k].1.Some? ==> q[k].1.value in visited
  }

  ghost predicate BfsInvariant(adj: Adjacency, src: Cell, visited: set<Cell>, q: seq<Entry>)
  {
    && AllReached(adj, src, visited)
    && QueueReached(adj, src, Heads(q))
    && PrevsVisited(q, visited)
    && ClosedUpTo(adj, visited, Heads(q))
  }

  lemma HeadsPrefix(q: seq<Entry>, q': seq<Entry>)
    requires |q| > 0 && |q| - 1 <= |q'| && q'[..|q| - 1] == q[1..]
    ensures Heads(q')[..|q| - 1] == Heads(q)[1..]
  {
    assert forall k :: 0 <= k < |q| - 1 ==> q'[k] == q'[..|q| - 1][k] == q[k + 1];
  }

  /** What the loop ends with, from a state that keeps the invariant. */
  ghost predicate BfsEnds(adj: Adjacency, src: Cell, visited: set<Cell>, q: seq<Entry>, r: Option<set<Cell>>)
  {
    r.Some? ==>
      && visited <= r.value
      && (forall k :: 0 <= k < |q| ==> q[k].0 in r.value)
      && Closed(adj, r.value)
      && AllReached(adj, src, r.value)
  }

  /**
   * When the loop runs to the end, the visited cells are reachable from
   * the source, hold every queued cell, and no link leaves them.
   */
  lemma {:induction false} BfsLoopMeaning(adj: Adjacency, rows: int, cols: int, src: Cell, visited: set<Cell>, q: seq<Entry>)
    requires StaysInGrid(adj, rows, cols) && visited <= AllCells(rows, cols)
    requires CellsInGrid(Heads(q), rows, cols)
    requires BfsInvariant(adj, src, visited, q)
    ensures BfsEnds(adj, src, visited, q, BfsLoop(adj, rows, cols, visited, q))
    decreases AllCells(rows, cols) - visited, |q|, 1
  {
    if |q| == 0 {
      assert BfsLoop(adj, rows, cols, visited, q) == Some(visited);
    } else if q[0].0 in visited {
      BfsSkipStep(adj, rows, cols, src, visited, q);
    } else {
      BfsVisitStep(adj, rows, cols, src, visited, q);
    }
  }

  /** The step that pops an already visited cell. */
  lemma {:induction false} BfsSkipStep(adj: Adjacency, rows: int, cols: int, src: Cell, visited: set<Cell>, q: seq<Entry>)
    requires StaysInGrid(adj, rows, cols) && visited <= AllCells(rows, cols)
    requires CellsInGrid(Heads(q), rows, cols)
    requires BfsInvariant(adj, src, visited, q)
    requires |q| > 0 && q[0].0 in visited
    ensures BfsEnds(adj, src, visited, q, BfsLoop(adj, rows, cols, visited, q))
    decreases AllCells(rows, cols) - visited, |q|, 0
  {
    assert BfsLoop(adj, rows, cols, visited, q) == BfsLoop(adj, rows, cols, visited, q[1..]);
    SkipKeeps(adj, rows, cols, src, visited, q);
    BfsLoopMeaning(adj, rows, cols, src, visited, q[1..]);
    SkipEnds(adj, src, visited, q, BfsLoop(adj, rows, cols, visited, q[1..]));
  }

  /** Popping a visited cell keeps the invariant on the rest of the queue. */
  lemma SkipKeeps(adj: Adjacency, rows: int, cols: int, src: Cell, visited: set<Cell>, q: seq<Entry>)
    requires CellsInGrid(Heads(q), rows, cols) && BfsInvariant(adj, src, visited, q)
    requires |q| > 0 && q[0].0 in visited
    ensures CellsInGrid(Heads(q[1..]), rows, cols) && BfsInvariant(adj, src, visited, q[1..])
  {
    assert Heads(q[1..]) == Heads(q)[1..];
    assert Heads(q)[0] == q[0].0;
    SkipStep(adj, src, visited, Heads(q));
    assert PrevsVisited(q[1..], visited) by {
      assert forall k :: 0 <= k < |q[1..]| ==> q[1..][k] == q[k + 1];
    }
  }

  /** What the loop ends with after the popped visited cell holds for the whole queue. */
  lemma SkipEnds(adj: Adjacency, src: Cell, visited: set<Cell>, q: seq<Entry>, r: Option<set<Cell>>)
    requires |q| > 0 && q[0].0 in visited && BfsEnds(adj, src, visited, q[1..], r)
    ensures BfsEnds(adj, src, visited, q, r)
  {
    if r.Some? {
      forall k | 0 < k < |q| ensures q[k].0 in r.value {
        assert q[1..][k - 1] == q[k];
      }
    }
  }

  /** The step that marks a new cell and queues its links. */
  lemma {:induction false} BfsVisitStep(adj: Adjacency, rows: int, cols: int, src: Cell, visited: set<Cell>, q: seq<Entry>)
    requires StaysInGrid(adj, rows, cols) && visited <= AllCells(rows, cols)
    requires CellsInGrid(Heads(q), rows, cols)
    requires BfsInvariant(adj, src, visited, q)
    requires |q| > 0 && q[0].0 !in visited
    ensures BfsEnds(adj, src, visited, q, BfsLoop(adj, rows, cols, visited, q))
    decreases AllCells(rows, cols) - visited, |q|, 0
  {
    var c := q[0].0;
    var v := visited + {c};
    var eq := Enqueue(adj(c), c, q[0].1, v, q[1..]);
    VisitKeeps(adj, rows, cols, src, visited, q);
    if eq.Some? {
      var q' := eq.value;
      assert BfsLoop(adj, rows, cols, visited, q) == BfsLoop(adj, rows, cols, v, q');
      BfsLoopMeaning(adj, rows, cols, src, v, q');
      VisitEnds(adj, src, visited, q, q', BfsLoop(adj, rows, cols, v, q'));
    }
  }

  /**
   * Marking the popped cell and queueing its links keeps the invariant,
   * with the rest of the queue still in front.
   */
  lemma VisitKeeps(adj: Adjacency, rows: int, cols: int, src: Cell, visited: set<Cell>, q: seq<Entry>)
    requires StaysInGrid(adj, rows, cols) && visited <= AllCells(rows, cols)
    requires CellsInGrid(Heads(q), rows, cols) && BfsInvariant(adj, src, visited, q) && |q| > 0
    ensures q[0].0 in AllCells(rows, cols)
    ensures var eq := Enqueue(adj(q[0].0), q[0].0, q[0].1, visited + {q[0].0}, q[1..]);
      eq.Some? ==>
        && CellsInGrid(Heads(eq.value), rows, cols) && BfsInvariant(adj, src, visited + {q[0].0}, eq.value)
        && |q| - 1 <= |eq.value| && eq.value[..|q| - 1] == q[1..]
  {
    var c := q[0].0;
    assert Heads(q)[0] == c;
    var eq := Enqueue(adj(c), c, q[0].1, visited + {c}, q[1..]);
    EnqueueMeaning(adj(c), c, q[0].1, visited + {c}, q[1..]);
    if eq.Some? {
      BfsQueueGrows(adj, rows, cols, src, visited, q, eq.value);
    }
  }

  /** What the loop ends with after the marked cell holds for the queue before it. */
  lemma VisitEnds(adj: Adjacency, src: Cell, visited: set<Cell>, q: seq<Entry>, q': seq<Entry>, r: Option<set<Cell>>)
    requires |q| > 0 && |q| - 1 <= |q'| && q'[..|q| - 1] == q[1..]
    requires BfsEnds(adj, src, visited + {q[0].0}, q', r)
    ensures BfsEnds(adj, src, visited, q, r)
  {
    if r.Some? {
      HeadsSurvive(q, q', r.value);
    }
  }

  /** The marked cell's links join the queue and the invariant carries over. */
  lemma BfsQueueGrows(adj: Adjacency, rows: int, cols: int, src: Cell, visited: set<Cell>, q: seq<Entry>, q': seq<Entry>)
    requires StaysInGrid(adj, rows, cols) && CellsInGrid(Heads(q), rows, cols)
    requires BfsInvariant(adj, src, visited, q) && |q| > 0
    requires |q| - 1 <= |q'| && q'[..|q| - 1] == q[1..]
    requires forall k :: |q| - 1 <= k < |q'| ==> q'[k].0 in adj(q[0].0) && q'[k].1 == Some(q[0].0)
    requires forall n :: n in adj(q[0].0) && Some(n) != q[0].1 ==> (n, Some(q[0].0)) in q'
    ensures CellsInGrid(Heads(q'), rows, cols)
    ensures BfsInvariant(adj, src, visited + {q[0].0}, q')
  {
    var c := q[0].0;
    var v := visited + {c};
    var hs, hs' := Heads(q), Heads(q');
    assert hs[0] == c;
    HeadsPrefix(q, q');
    assert Successor(adj, hs, hs');
    QueueStep(adj, rows, cols, src, hs, hs');
    VisitStep(adj, src, visited, hs);
    forall n | n in adj(c) ensures n in v || n in hs' {
      if Some(n) != q[0].1 {
        var k :| 0 <= k < |q'| && q'[k] == (n, Some(c));
        assert hs'[k] == n;
      } else {
        assert q[0].1.value in visited;
      }
    }
    ClosureStep(adj, visited, hs, hs');
    forall k | 0 <= k < |q'| && q'[k].1.Some? ensures q'[k].1.value in v {
      if k < |q| - 1 {
        assert q'[k] == q'[..|q| - 1][k] == q[k + 1];
      }
    }
  }

  /** Every cell queued before the step is still accounted for after it. */
  lemma HeadsSurvive(q: seq<Entry>, q': seq<Entry>, v: set<Cell>)
    requires |q| > 0 && |q| - 1 <= |q'| && q'[..|q| - 1] == q[1..]
    requires q[0].0 in v && forall k :: 0 <= k < |q'| ==> q'[k].0 in v
    ensures forall k :: 0 <= k < |q| ==> q[k].0 in v
  {
    forall k | 0 < k < |q| ensures q[k].0 in v {
      assert q'[k - 1] == q'[..|q| - 1][k - 1] == q[k];
    }
  }

  /**
   * bfs answers True exactly when its loop reports no cycle and every
   * explored cell can be reached from the source along the links of
   * get_reachable_explored; the visited cells are then exactly those.
   */
  lemma BfsMeaning(g: Grid, e: Explored, rows: int, cols: int, source: Cell)
    requires Shaped(g, rows, cols) && Shaped(e, rows, cols) && InGrid(rows, cols, source.0, source.1)
    ensures var adj := ExploredLinks(g, e, rows, cols);
      var r := BfsLoop(adj, rows, cols, {}, [(source, None)]);
      && (r.Some? ==> forall c :: c in r.value <==> Reaches(adj, source, c))
      && (Bfs(g, e, rows, cols, source) <==>
            r.Some? && forall i, j :: 0 <= i < rows && 0 <= j < cols && e[i][j].Some? ==> Reaches(adj, source, (i, j)))
  {
    var adj := ExploredLinks(g, e, rows, cols);
    ExploredLinksStayInGrid(g, e, rows, cols);
    var q := [(source, None)];
    ReachesItself(adj, source);
    assert Heads(q) == [source];
    assert BfsInvariant(adj, source, {}, q);
    BfsLoopMeaning(adj, rows, cols, source, {}, q);
    var r := BfsLoop(adj, rows, cols, {}, q);
    if r.Some? {
      forall c ensures c in r.value <==> Reaches(adj, source, c) {
        if Reaches(adj, source, c) {
          ClosedHoldsReachable(adj, r.value, source, c);
        }
      }
    }
  }

  // ---------------------------------------------------------------------
  // is_loop (diagonal draft)
  // ---------------------------------------------------------------------

  predicate ExploredAt(e: Explored, rows: int, cols: int, c: Cell)
    requires Shaped(e, rows, cols)
  {
    InGrid(rows, cols, c.0, c.1) && e[c.0][c.1].Some?
  }

  /**
   * The inner loop of is_loop over the links of the current cell: an
   * unexplored one ends the search (None); the others not yet visited are
   * queued.
   */
  function QueueUnvisited(next: seq<Cell>, e: Explored, rows: int, cols: int, visited: set<Cell>, q: seq<Cell>): (r: Option<seq<Cell>>)
    requires Shaped(e, rows, cols) && CellsInGrid(next, rows, cols)
    ensures r.None? <==> exists k :: 0 <= k < |next| && e[next[k].0][next[k].1].None?
    ensures r.Some? ==> |q| <= |r.value| && r.value[..|q|] == q
    ensures r.Some? ==> forall k :: |q| <= k < |r.value| ==> r.value[k] in next && r.value[k] !in visited
    ensures r.Some? ==> forall n :: n in next && n !in visited ==> n in r.value
    decreases |next|
  {
    if |next| == 0 then Some(q)
    else
      var n := next[0];
      assert forall k :: 0 <= k < |next[1..]| ==> next[1..][k] == next[k + 1];
      assert forall c :: c in next <==> c == n || c in next[1..];
      if e[n.0][n.1].None? then None
      else if n !in visited then
        var r := QueueUnvisited(next[1..], e, rows, cols, visited, q + [n]);
        assert r.Some? ==> r.value[..|q|] == (q + [n])[..|q|] && r.value[|q|] == n;
        r
      else QueueUnvisited(next[1..], e, rows, cols, visited, q)
  }

  /** How many queued cells are already visited. */
  function CountVisited(q: seq<Cell>, visited: set<Cell>): nat
  {
    if |q| == 0 then 0 else (if q[0] in visited then 1 else 0) + CountVisited(q[1..], visited)
  }

  lemma {:induction false} CountVisitedAppend(a: seq<Cell>, b: seq<Cell>, visited: set<Cell>)
    requires forall k :: 0 <= k < |b| ==> b[k] !in visited
    ensures CountVisited(a + b, visited) == CountVisited(a, visited)
    decreases |a| + |b|
  {
    if |a| > 0 {
      assert (a + b)[1..] == a[1..] + b;
      CountVisitedAppend(a[1..], b, visited);
    } else if |b| > 0 {
      assert a + b == b && a + b[1..] == b[1..];
      assert forall k :: 0 <= k < |b[1..]| ==> b[1..][k] == b[k + 1];
      CountVisitedAppend(a, b[1..], visited);
    }
  }

  /**
   * The while loop of is_loop: None when an unexplored cell is linked to,
   * else the visited cells once the queue is empty. A cell may be queued
   * again before it is first visited, so an entry can be popped after its
   * cell was visited; its links are then looked at again.
   */
  function LoopSearch(adj: Adjacency, e: Explored, rows: int, cols: int, visited: set<Cell>, q: seq<Cell>): Option<set<Cell>>
    requires Shaped(e, rows, cols) && StaysInGrid(adj, rows, cols) && visited <= AllCells(rows, cols)
    requires CellsInGrid(q, rows, cols)
    decreases AllCells(rows, cols) - visited, CountVisited(q, visited)
  {
    if |q| == 0 then Some(visited)
    else
      var c := q[0];
      var v := visited + {c};
      assert c in AllCells(rows, cols);
      assert CellsInGrid(adj(c), rows, cols);
      match QueueUnvisited(adj(c), e, rows, cols, v, q[1..])
      case None => None
      case Some(q') =>
        assert CellsInGrid(q', rows, cols) by {
          forall k | 0 <= k < |q'| ensures InGrid(rows, cols, q'[k].0, q'[k].1) {
            if k < |q| - 1 {
              assert q'[k] == q'[..|q| - 1][k] == q[1..][k] == q[k + 1];
            }
          }
        }
        assert c !in visited || CountVisited(q', v) < CountVisited(q, visited) by {
          if c in visited {
            assert v == visited;
            CountDrops(q, q', visited);
          }
        }
        LoopSearch(adj, e, rows, cols, v, q')
  }

  /**
   * is_loop: True when the search from (row, col) along get_reachable
   * meets no unexplored cell.
   */
  function IsLoop(g: Grid, e: Explored, rows: int, cols: int, row: int, col: int): bool
    requires Shaped(g, rows, cols) && Shaped(e, rows, cols) && InGrid(rows, cols, row, col)
  {
    ConnectorLinksStayInGrid(g, rows, cols);
    LoopSearch(ConnectorLinks(g, rows, cols), e, rows, cols, {}, [(row, col)]).Some?
  }

  /** Every link out of a visited cell ends in an explored cell. */
  ghost predicate LinksExplored(adj: Adjacency, e: Explored, rows: int, cols: int, visited: set<Cell>)
    requires Shaped(e, rows, cols)
  {
    forall c, n :: c in visited && n in adj(c) ==> ExploredAt(e, rows, cols, n)
  }

  ghost predicate LoopInvariant(adj: Adjacency, e: Explored, rows: int, cols: int, src: Cell, visited: set<Cell>, q: seq<Cell>)
    requires Shaped(e, rows, cols)
  {
    && AllReached(adj, src, visited)
    && QueueReached(adj, src, q)
    && ClosedUpTo(adj, visited, q)
    && LinksExplored(adj, e, rows, cols, visited)
  }

  /** Some cell reachable from src links to an unexplored cell. */
  ghost predicate LeadsToUnexplored(adj: Adjacency, e: Explored, rows: int, cols: int, src: Cell)
    requires Shaped(e, rows, cols)
  {
    exists c, n :: Reaches(adj, src, c) && n in adj(c) && !ExploredAt(e, rows, cols, n)
  }

  /** What the search ends with, from a state that keeps the invariant. */
  ghost predicate LoopEnds(adj: Adjacency, e: Explored, rows: int, cols: int, src: Cell,
                           visited: set<Cell>, q: seq<Cell>, r: Option<set<Cell>>)
    requires Shaped(e, rows, cols)
  {
    && (r.None? ==> LeadsToUnexplored(adj, e, rows, cols, src))
    && (r.Some? ==>
          && visited <= r.value
          && (forall k :: 0 <= k < |q| ==> q[k] in r.value)
          && Closed(adj, r.value)
          && LinksExplored(adj, e, rows, cols, r.value))
  }

  lemma {:induction false} LoopSearchMeaning(adj: Adjacency, e: Explored, rows: int, cols: int, src: Cell,
                                             visited: set<Cell>, q: seq<Cell>)
    requires Shaped(e, rows, cols) && StaysInGrid(adj, rows, cols) && visited <= AllCells(rows, cols)
    requires CellsInGrid(q, rows, cols)
    requires LoopInvariant(adj, e, rows, cols, src, visited, q)
    ensures LoopEnds(adj, e, rows, cols, src, visited, q, LoopSearch(adj, e, rows, cols, visited, q))
    decreases AllCells(rows, cols) - visited, CountVisited(q, visited), 1
  {
    if |q| == 0 {
      assert LoopSearch(adj, e, rows, cols, visited, q) == Some(visited);
    } else {
      LoopSearchStep(adj, e, rows, cols, src, visited, q);
    }
  }

  lemma {:induction false} LoopSearchStep(adj: Adjacency, e: Explored, rows: int, cols: int, src: Cell,
                                          visited: set<Cell>, q: seq<Cell>)
    requires Shaped(e, rows, cols) && StaysInGrid(adj, rows, cols) && visited <= AllCells(rows, cols)
    requires CellsInGrid(q, rows, cols) && |q| > 0
    requires LoopInvariant(adj, e, rows, cols, src, visited, q)
    ensures LoopEnds(adj, e, rows, cols, src, visited, q, LoopSearch(adj, e, rows, cols, visited, q))
    decreases AllCells(rows, cols) - visited, CountVisited(q, visited), 0
  {
    var c := q[0];
    var v := visited + {c};
    LoopKeeps(adj, e, rows, cols, src, visited, q);
    var qu := QueueUnvisited(adj(c), e, rows, cols, v, q[1..]);
    if qu.None? {
      assert LoopSearch(adj, e, rows, cols, visited, q).None?;
    } else {
      var q' := qu.value;
      assert LoopSearch(adj, e, rows, cols, visited, q) == LoopSearch(adj, e, rows, cols, v, q');
      if c in visited {
        assert v == visited;
      } else {
        assert c in AllCells(rows, cols) - visited && c !in AllCells(rows, cols) - v;
      }
      LoopSearchMeaning(adj, e, rows, cols, src, v, q');
      LoopEndsBack(adj, e, rows, cols, src, visited, q, q', LoopSearch(adj, e, rows, cols, v, q'));
    }
  }

  /**
   * One turn of is_loop's search keeps the invariant: either a link of
   * the popped cell is unexplored, or its unvisited links join the queue.
   */
  lemma LoopKeeps(adj: Adjacency, e: Explored, rows: int, cols: int, src: Cell, visited: set<Cell>, q: seq<Cell>)
    requires Shaped(e, rows, cols) && StaysInGrid(adj, rows, cols) && visited <= AllCells(rows, cols)
    requires CellsInGrid(q, rows, cols) && |q| > 0
    requires LoopInvariant(adj, e, rows, cols, src, visited, q)
    ensures q[0] in AllCells(rows, cols) && CellsInGrid(adj(q[0]), rows, cols)
    ensures var qu := QueueUnvisited(adj(q[0]), e, rows, cols, visited + {q[0]}, q[1..]);
      && (qu.None? ==> LeadsToUnexplored(adj, e, rows, cols, src))
      && (qu.Some? ==>
            && CellsInGrid(qu.value, rows, cols)
            && LoopInvariant(adj, e, rows, cols, src, visited + {q[0]}, qu.value)
            && (q[0] in visited ==> CountVisited(qu.value, visited) < CountVisited(q, visited))
            && |q| - 1 <= |qu.value| && qu.value[..|q| - 1] == q[1..])
  {
    var c := q[0];
    var v := visited + {c};
    assert c in AllCells(rows, cols);
    assert CellsInGrid(adj(c), rows, cols);
    var next := adj(c);
    var qu := QueueUnvisited(next, e, rows, cols, v, q[1..]);
    if qu.None? {
      var k :| 0 <= k < |next| && e[next[k].0][next[k].1].None?;
      assert Reaches(adj, src, c);
      assert next[k] in adj(c) && !ExploredAt(e, rows, cols, next[k]);
    } else {
      var q' := qu.value;
      forall n | n in next ensures ExploredAt(e, rows, cols, n) {
        var k :| 0 <= k < |next| && next[k] == n;
        assert e[next[k].0][next[k].1].Some?;
      }
      LoopQueueGrows(adj, e, rows, cols, src, visited, q, q');
      if c in visited {
        assert v == visited;
        CountDrops(q, q', visited);
      }
    }
  }

  /** What the search ends with after the popped cell holds for the queue before it. */
  lemma LoopEndsBack(adj: Adjacency, e: Explored, rows: int, cols: int, src: Cell,
                     visited: set<Cell>, q: seq<Cell>, q': seq<Cell>, r: Option<set<Cell>>)
    requires Shaped(e, rows, cols) && |q| > 0 && |q| - 1 <= |q'| && q'[..|q| - 1] == q[1..]
    requires LoopEnds(adj, e, rows, cols, src, visited + {q[0]}, q', r)
    ensures LoopEnds(adj, e, rows, cols, src, visited, q, r)
  {
    if r.Some? {
      CellsSurvive(q, q', r.value);
    }
  }

  /** The popped cell's links join the queue and the invariant carries over. */
  lemma LoopQueueGrows(adj: Adjacency, e: Explored, rows: int, cols: int, src: Cell,
                       visited: set<Cell>, q: seq<Cell>, q': seq<Cell>)
    requires Shaped(e, rows, cols) && StaysInGrid(adj, rows, cols) && CellsInGrid(q, rows, cols) && |q| > 0
    requires LoopInvariant(adj, e, rows, cols, src, visited, q)
    requires |q| - 1 <= |q'| && q'[..|q| - 1] == q[1..]
    requires forall k :: |q| - 1 <= k < |q'| ==> q'[k] in adj(q[0]) && q'[k] !in visited + {q[0]}
    requires forall n :: n in adj(q[0]) && n !in visited + {q[0]} ==> n in q'
    requires forall n :: n in adj(q[0]) ==> ExploredAt(e, rows, cols, n)
    ensures CellsInGrid(q', rows, cols)
    ensures LoopInvariant(adj, e, rows, cols, src, visited + {q[0]}, q')
  {
    assert Successor(adj, q, q');
    QueueStep(adj, rows, cols, src, q, q');
    VisitStep(adj, src, visited, q);
    ClosureStep(adj, visited, q, q');
  }

  /** Popping a visited cell and queueing only unvisited ones lowers the count. */
  lemma CountDrops(q: seq<Cell>, q': seq<Cell>, visited: set<Cell>)
    requires |q| > 0 && q[0] in visited
    requires |q| - 1 <= |q'| && q'[..|q| - 1] == q[1..]
    requires forall k :: |q| - 1 <= k < |q'| ==> q'[k] !in visited
    ensures CountVisited(q', visited) < CountVisited(q, visited)
  {
    var tail := q'[|q| - 1..];
    assert q' == q[1..] + tail;
    assert forall k :: 0 <= k < |tail| ==> tail[k] == q'[k + |q| - 1];
    CountVisitedAppend(q[1..], tail, visited);
  }

  /** Every cell queued before the step is still accounted for after it. */
  lemma CellsSurvive(q: seq<Cell>, q': seq<Cell>, v: set<Cell>)
    requires |q| > 0 && |q| - 1 <= |q'| && q'[..|q| - 1] == q[1..]
    requires q[0] in v && forall k :: 0 <= k < |q'| ==> q'[k] in v
    ensures forall k :: 0 <= k < |q| ==> q[k] in v
  {
    forall k | 0 < k < |q| ensures q[k] in v {
      assert q'[k - 1] == q'[..|q| - 1][k - 1] == q[k];
    }
  }

  /**
   * is_loop is False exactly when some cell reachable from (row, col)
   * along get_reachable links to an unexplored cell.
   */
  lemma IsLoopMeaning(g: Grid, e: Explored, rows: int, cols: int, row: int, col: int)
    requires Shaped(g, rows, cols) && Shaped(e, rows, cols) && InGrid(rows, cols, row, col)
    ensures !IsLoop(g, e, rows, cols, row, col) <==>
      LeadsToUnexplored(ConnectorLinks(g, rows, cols), e, rows, cols, (row, col))
  {
    var adj := ConnectorLinks(g, rows, cols);
    ConnectorLinksStayInGrid(g, rows, cols);
    var src: Cell := (row, col);
    ReachesItself(adj, src);
    assert CellsInGrid([src], rows, cols);
    LoopSearchMeaning(adj, e, rows, cols, src, {}, [src]);
    var r := LoopSearch(adj, e, rows, cols, {}, [src]);
    if r.Some? && LeadsToUnexplored(adj, e, rows, cols, src) {
      var c, n :| Reaches(adj, src, c) && n in adj(c) && !ExploredAt(e, rows, cols, n);
      assert [src][0] in r.value;
      ClosedHoldsReachable(adj, r.value, src, c);
    }
  }
}
