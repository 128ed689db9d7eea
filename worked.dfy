/**
 * The goal board written out at the end of base/pipe.py: parsed with the
 * tab parser it is a 3 x 3 network in which every piece agrees with each
 * neighbour and no connector leaves the grid, and the breadth-first goal
 * test of the final solver finds it one tree over all nine cells.
 */
module Worked {
  import opened Wrappers
  import opened Pieces
  import opened Grids
  import opened Text
  import opened Dfs
  import opened BaseGoals
  import opened Traversal

  /** The goal string's rows and tokens. */
  function GoalText(): TextGrid
  {
    [["FB", "VB", "VE"], ["BD", "BE", "LV"], ["FC", "FC", "FC"]]
  }

  /** The same board as codes. */
  function GoalGrid(): Grid
  {
    [[FB, VB, VE], [BD, BE, LV], [FC, FC, FC]]
  }

  /** The goal string parses to the goal board, token by token. */
  lemma GoalParses()
    ensures ParseInstance("FB\tVB\tVE\nBD\tBE\tLV\nFC\tFC\tFC\n") == GoalText()
  {
    GoalPlain();
    GoalPrinted();
    ParsePrinted(GoalText());
  }

  /** Each token names the code of the goal board at its cell. */
  lemma GoalCodes()
    ensures forall i, j :: 0 <= i < 3 && 0 <= j < 3 ==> FromName(GoalText()[i][j]) == Some(GoalGrid()[i][j])
  {
    var t := GoalText();
    var g := GoalGrid();
    forall i, j | 0 <= i < 3 && 0 <= j < 3 ensures FromName(t[i][j]) == Some(g[i][j]) {
      NameRoundTrip(g[i][j]);
      assert t[i][j] == Name(g[i][j]);
    }
  }

  lemma GoalPlain()
    ensures PlainGrid(GoalText())
  {
    var g := GoalText();
    forall i, j | 0 <= i < |g| && 0 <= j < |g[i]| ensures PlainToken(g[i][j]) {
      var t := g[i][j];
      assert |t| == 2 && t[0] in "FBVL" && t[1] in "CBEDHV";
    }
  }

  lemma GoalPrinted()
    ensures Serialise(GoalText()) == "FB\tVB\tVE\nBD\tBE\tLV\nFC\tFC\tFC\n"
  {
    var g := GoalText();
    RowPrinted(g[0], "FB\tVB\tVE\n");
    RowPrinted(g[1], "BD\tBE\tLV\n");
    RowPrinted(g[2], "FC\tFC\tFC\n");
    assert Serialise(g[3..]) == "";
    assert Serialise(g[2..]) == "FC\tFC\tFC\n";
    assert Serialise(g[1..]) == "BD\tBE\tLV\n" + "FC\tFC\tFC\n";
  }

  /**
   * Every piece of the goal board agrees with each of its neighbours and
   * points only inside the grid, so isConnected accepts every cell and
   * goal_test holds once all nine cells are listed as fixed.
   */
  lemma GoalConnected()
    ensures Shaped(GoalGrid(), 3, 3)
    ensures forall i, j :: InGrid(3, 3, i, j) ==> WellConnectedAt(GoalGrid(), 3, 3, i, j)
    ensures BaseGoal([(0, 0), (0, 1), (0, 2), (1, 0), (1, 1), (1, 2), (2, 0), (2, 1), (2, 2)], 3, 3)
  {
  }

  /** The goal board with every cell explored. */
  function GoalExplored(): Explored
  {
    [[Some(FB), Some(VB), Some(VE)], [Some(BD), Some(BE), Some(LV)], [Some(FC), Some(FC), Some(FC)]]
  }

  /** The links get_reachable_explored gives each cell of the explored goal board. */
  predicate GoalLinksAre(adj: Adjacency)
  {
    && adj((0, 0)) == [(1, 0)]
    && adj((0, 1)) == [(1, 1), (0, 2)]
    && adj((0, 2)) == [(1, 2), (0, 1)]
    && adj((1, 0)) == [(0, 0), (2, 0), (1, 1)]
    && adj((1, 1)) == [(0, 1), (2, 1), (1, 0)]
    && adj((1, 2)) == [(0, 2), (2, 2)]
    && adj((2, 0)) == [(1, 0)]
    && adj((2, 1)) == [(1, 1)]
    && adj((2, 2)) == [(1, 2)]
  }

  lemma GoalShaped()
    ensures Shaped(GoalGrid(), 3, 3) && Shaped(GoalExplored(), 3, 3)
  {
  }

  /** On the goal board the in-grid filter keeps every guarded append. */
  lemma GoalLinkAt(i: int, j: int)
    requires 0 <= i < 3 && 0 <= j < 3
    ensures Shaped(GoalGrid(), 3, 3) && Shaped(GoalExplored(), 3, 3)
    ensures ExploredLinks(GoalGrid(), GoalExplored(), 3, 3)((i, j)) ==
      ExploredSides(GoalGrid(), GoalExplored(), 3, 3, i, j)
  {
    GoalShaped();
    var s := ExploredSides(GoalGrid(), GoalExplored(), 3, 3, i, j);
    ExploredSidesMembers(GoalGrid(), GoalExplored(), 3, 3, i, j);
    assert CellsInGrid(s, 3, 3);
    KeepAllInGrid(s, 3, 3);
  }

  lemma GoalSidesTop()
    ensures Shaped(GoalGrid(), 3, 3) && Shaped(GoalExplored(), 3, 3)
    ensures ExploredSides(GoalGrid(), GoalExplored(), 3, 3, 0, 0) == [(1, 0)]
    ensures ExploredSides(GoalGrid(), GoalExplored(), 3, 3, 0, 1) == [(1, 1), (0, 2)]
    ensures ExploredSides(GoalGrid(), GoalExplored(), 3, 3, 0, 2) == [(1, 2), (0, 1)]
  {
    GoalShaped();
  }

  lemma GoalSidesMiddle()
    ensures Shaped(GoalGrid(), 3, 3) && Shaped(GoalExplored(), 3, 3)
    ensures ExploredSides(GoalGrid(), GoalExplored(), 3, 3, 1, 0) == [(0, 0), (2, 0), (1, 1)]
    ensures ExploredSides(GoalGrid(), GoalExplored(), 3, 3, 1, 1) == [(0, 1), (2, 1), (1, 0)]
    ensures ExploredSides(GoalGrid(), GoalExplored(), 3, 3, 1, 2) == [(0, 2), (2, 2)]
  {
    GoalShaped();
  }

  lemma GoalSidesBottom()
    ensures Shaped(GoalGrid(), 3, 3) && Shaped(GoalExplored(), 3, 3)
    ensures ExploredSides(GoalGrid(), GoalExplored(), 3, 3, 2, 0) == [(1, 0)]
    ensures ExploredSides(GoalGrid(), GoalExplored(), 3, 3, 2, 1) == [(1, 1)]
    ensures ExploredSides(GoalGrid(), GoalExplored(), 3, 3, 2, 2) == [(1, 2)]
  {
    GoalShaped();
  }

  lemma GoalLinks()
    ensures GoalLinksAre(ExploredLinks(GoalGrid(), GoalExplored(), 3, 3))
  {
    GoalSidesTop();
    GoalSidesMiddle();
    GoalSidesBottom();
    GoalLinkAt(0, 0); GoalLinkAt(0, 1); GoalLinkAt(0, 2);
    GoalLinkAt(1, 0); GoalLinkAt(1, 1); GoalLinkAt(1, 2);
    GoalLinkAt(2, 0); GoalLinkAt(2, 1); GoalLinkAt(2, 2);
  }

  /** One pop of the loop that finds c unvisited and queues its links. */
  lemma GoalStep(adj: Adjacency, visited: set<Cell>, q: seq<Entry>, c: Cell, prev: Option<Cell>, rest: seq<Entry>,
                 next: seq<Cell>, visited': set<Cell>, q': seq<Entry>)
    requires StaysInGrid(adj, 3, 3) && visited' <= AllCells(3, 3)
    requires CellsInGrid(Heads(q), 3, 3) && CellsInGrid(Heads(q'), 3, 3)
    requires q == [(c, prev)] + rest && visited' == visited + {c}
    requires c !in visited && adj(c) == next && Enqueue(next, c, prev, visited', rest) == Some(q')
    ensures BfsLoop(adj, 3, 3, visited, q) == BfsLoop(adj, 3, 3, visited', q')
  {
    assert q[0] == (c, prev) && q[1..] == rest;
  }

  /** The inner loop passes over the link back to the predecessor. */
  lemma EnqueueSkips(next: seq<Cell>, n: Cell, rest: seq<Cell>, cur: Cell, prev: Option<Cell>, visited: set<Cell>,
                     q: seq<Entry>)
    requires next == [n] + rest && Some(n) == prev
    ensures Enqueue(next, cur, prev, visited, q) == Enqueue(rest, cur, prev, visited, q)
  {
    assert next[0] == n && next[1..] == rest;
  }

  /** The inner loop queues an unvisited link behind cur. */
  lemma EnqueueQueues(next: seq<Cell>, n: Cell, rest: seq<Cell>, cur: Cell, prev: Option<Cell>, visited: set<Cell>,
                      q: seq<Entry>, q': seq<Entry>)
    requires next == [n] + rest && q' == q + [(n, Some(cur))] && Some(n) != prev && n !in visited
    ensures Enqueue(next, cur, prev, visited, q) == Enqueue(rest, cur, prev, visited, q')
  {
    assert next[0] == n && next[1..] == rest;
  }

  /** The inner loop at the first three pops. */
  lemma GoalQueuesTop()
    ensures Enqueue([(1, 0)], (0, 0), None, {(0, 0)}, []) == Some([((1, 0), Some((0, 0)))])
    ensures Enqueue([(0, 0), (2, 0), (1, 1)], (1, 0), Some((0, 0)), {(0, 0), (1, 0)}, []) ==
      Some([((2, 0), Some((1, 0))), ((1, 1), Some((1, 0)))])
    ensures Enqueue([(1, 0)], (2, 0), Some((1, 0)), {(0, 0), (1, 0), (2, 0)}, [((1, 1), Some((1, 0)))]) ==
      Some([((1, 1), Some((1, 0)))])
  {
    EnqueueQueues([(1, 0)], (1, 0), [], (0, 0), None, {(0, 0)}, [], [((1, 0), Some((0, 0)))]);
    var v2 := {(0, 0), (1, 0)};
    EnqueueSkips([(0, 0), (2, 0), (1, 1)], (0, 0), [(2, 0), (1, 1)], (1, 0), Some((0, 0)), v2, []);
    EnqueueQueues([(2, 0), (1, 1)], (2, 0), [(1, 1)], (1, 0), Some((0, 0)), v2, [], [((2, 0), Some((1, 0)))]);
    EnqueueQueues([(1, 1)], (1, 1), [], (1, 0), Some((0, 0)), v2,
      [((2, 0), Some((1, 0)))], [((2, 0), Some((1, 0))), ((1, 1), Some((1, 0)))]);
    EnqueueSkips([(1, 0)], (1, 0), [], (2, 0), Some((1, 0)), {(0, 0), (1, 0), (2, 0)},
      [((1, 1), Some((1, 0)))]);
  }

  /** The inner loop at the middle three pops. */
  lemma GoalQueuesMiddle()
    ensures var v := {(0, 0), (1, 0), (2, 0), (1, 1)};
      Enqueue([(0, 1), (2, 1), (1, 0)], (1, 1), Some((1, 0)), v, []) ==
      Some([((0, 1), Some((1, 1))), ((2, 1), Some((1, 1)))])
    ensures var v := {(0, 0), (1, 0), (2, 0), (1, 1), (0, 1)};
      Enqueue([(1, 1), (0, 2)], (0, 1), Some((1, 1)), v, [((2, 1), Some((1, 1)))]) ==
      Some([((2, 1), Some((1, 1))), ((0, 2), Some((0, 1)))])
    ensures var v := {(0, 0), (1, 0), (2, 0), (1, 1), (0, 1), (2, 1)};
      Enqueue([(1, 1)], (2, 1), Some((1, 1)), v, [((0, 2), Some((0, 1)))]) == Some([((0, 2), Some((0, 1)))])
  {
    var v4 := {(0, 0), (1, 0), (2, 0), (1, 1)};
    EnqueueQueues([(0, 1), (2, 1), (1, 0)], (0, 1), [(2, 1), (1, 0)], (1, 1), Some((1, 0)), v4,
      [], [((0, 1), Some((1, 1)))]);
    EnqueueQueues([(2, 1), (1, 0)], (2, 1), [(1, 0)], (1, 1), Some((1, 0)), v4,
      [((0, 1), Some((1, 1)))], [((0, 1), Some((1, 1))), ((2, 1), Some((1, 1)))]);
    EnqueueSkips([(1, 0)], (1, 0), [], (1, 1), Some((1, 0)), v4,
      [((0, 1), Some((1, 1))), ((2, 1), Some((1, 1)))]);
    var v5 := {(0, 0), (1, 0), (2, 0), (1, 1), (0, 1)};
    EnqueueSkips([(1, 1), (0, 2)], (1, 1), [(0, 2)], (0, 1), Some((1, 1)), v5, [((2, 1), Some((1, 1)))]);
    EnqueueQueues([(0, 2)], (0, 2), [], (0, 1), Some((1, 1)), v5,
      [((2, 1), Some((1, 1)))], [((2, 1), Some((1, 1))), ((0, 2), Some((0, 1)))]);
    var v6 := {(0, 0), (1, 0), (2, 0), (1, 1), (0, 1), (2, 1)};
    EnqueueSkips([(1, 1)], (1, 1), [], (2, 1), Some((1, 1)), v6, [((0, 2), Some((0, 1)))]);
  }

  /** The inner loop at the last three pops. */
  lemma GoalQueuesBottom()
    ensures var v := {(0, 0), (1, 0), (2, 0), (1, 1), (0, 1), (2, 1), (0, 2)};
      Enqueue([(1, 2), (0, 1)], (0, 2), Some((0, 1)), v, []) == Some([((1, 2), Some((0, 2)))])
    ensures var v := {(0, 0), (1, 0), (2, 0), (1, 1), (0, 1), (2, 1), (0, 2), (1, 2)};
      Enqueue([(0, 2), (2, 2)], (1, 2), Some((0, 2)), v, []) == Some([((2, 2), Some((1, 2)))])
    ensures var v := {(0, 0), (1, 0), (2, 0), (1, 1), (0, 1), (2, 1), (0, 2), (1, 2), (2, 2)};
      Enqueue([(1, 2)], (2, 2), Some((1, 2)), v, []) == Some([])
  {
    var v7 := {(0, 0), (1, 0), (2, 0), (1, 1), (0, 1), (2, 1), (0, 2)};
    EnqueueQueues([(1, 2), (0, 1)], (1, 2), [(0, 1)], (0, 2), Some((0, 1)), v7, [], [((1, 2), Some((0, 2)))]);
    EnqueueSkips([(0, 1)], (0, 1), [], (0, 2), Some((0, 1)), v7, [((1, 2), Some((0, 2)))]);
    var v8 := {(0, 0), (1, 0), (2, 0), (1, 1), (0, 1), (2, 1), (0, 2), (1, 2)};
    EnqueueSkips([(0, 2), (2, 2)], (0, 2), [(2, 2)], (1, 2), Some((0, 2)), v8, []);
    EnqueueQueues([(2, 2)], (2, 2), [], (1, 2), Some((0, 2)), v8, [], [((2, 2), Some((1, 2)))]);
    var v9 := {(0, 0), (1, 0), (2, 0), (1, 1), (0, 1), (2, 1), (0, 2), (1, 2), (2, 2)};
    EnqueueSkips([(1, 2)], (1, 2), [], (2, 2), Some((1, 2)), v9, []);
  }

  /** The nine cells of the board. */
  lemma GoalCells()
    ensures AllCells(3, 3) == {(0, 0), (1, 0), (2, 0), (1, 1), (0, 1), (2, 1), (0, 2), (1, 2), (2, 2)}
  {
    var all := {(0, 0), (1, 0), (2, 0), (1, 1), (0, 1), (2, 1), (0, 2), (1, 2), (2, 2)};
    forall c | c in AllCells(3, 3) ensures c in all {
      assert c.0 in {0, 1, 2} && c.1 in {0, 1, 2};
    }
  }

  /** The first three pops: the corner, the tee below it and the end under the tee. */
  lemma GoalLoopTop(adj: Adjacency)
    requires StaysInGrid(adj, 3, 3) && GoalLinksAre(adj)
    ensures BfsLoop(adj, 3, 3, {}, [((0, 0), None)]) ==
      BfsLoop(adj, 3, 3, {(0, 0), (1, 0), (2, 0)}, [((1, 1), Some((1, 0)))])
  {
    GoalCells();
    GoalQueuesTop();
    GoalStep(adj, {}, [((0, 0), None)],
      (0, 0), None, [], [(1, 0)],
      {(0, 0)},
      [((1, 0), Some((0, 0)))]);
    GoalStep(adj, {(0, 0)}, [((1, 0), Some((0, 0)))],
      (1, 0), Some((0, 0)), [], [(0, 0), (2, 0), (1, 1)],
      {(0, 0), (1, 0)},
      [((2, 0), Some((1, 0))), ((1, 1), Some((1, 0)))]);
    GoalStep(adj, {(0, 0), (1, 0)}, [((2, 0), Some((1, 0))), ((1, 1), Some((1, 0)))],
      (2, 0), Some((1, 0)), [((1, 1), Some((1, 0)))], [(1, 0)],
      {(0, 0), (1, 0), (2, 0)},
      [((1, 1), Some((1, 0)))]);
  }

  /** The next three pops: the centre tee, the elbow above it and the end below it. */
  lemma GoalLoopMiddle(adj: Adjacency)
    requires StaysInGrid(adj, 3, 3) && GoalLinksAre(adj)
    ensures BfsLoop(adj, 3, 3, {(0, 0), (1, 0), (2, 0)}, [((1, 1), Some((1, 0)))]) ==
      BfsLoop(adj, 3, 3, {(0, 0), (1, 0), (2, 0), (1, 1), (0, 1), (2, 1)}, [((0, 2), Some((0, 1)))])
  {
    GoalCells();
    GoalQueuesMiddle();
    GoalStep(adj, {(0, 0), (1, 0), (2, 0)}, [((1, 1), Some((1, 0)))],
      (1, 1), Some((1, 0)), [], [(0, 1), (2, 1), (1, 0)],
      {(0, 0), (1, 0), (2, 0), (1, 1)},
      [((0, 1), Some((1, 1))), ((2, 1), Some((1, 1)))]);
    GoalStep(adj, {(0, 0), (1, 0), (2, 0), (1, 1)}, [((0, 1), Some((1, 1))), ((2, 1), Some((1, 1)))],
      (0, 1), Some((1, 1)), [((2, 1), Some((1, 1)))], [(1, 1), (0, 2)],
      {(0, 0), (1, 0), (2, 0), (1, 1), (0, 1)},
      [((2, 1), Some((1, 1))), ((0, 2), Some((0, 1)))]);
    GoalStep(adj, {(0, 0), (1, 0), (2, 0), (1, 1), (0, 1)}, [((2, 1), Some((1, 1))), ((0, 2), Some((0, 1)))],
      (2, 1), Some((1, 1)), [((0, 2), Some((0, 1)))], [(1, 1)],
      {(0, 0), (1, 0), (2, 0), (1, 1), (0, 1), (2, 1)},
      [((0, 2), Some((0, 1)))]);
  }

  /** The last three pops: the right column from the top. */
  lemma GoalLoopBottom(adj: Adjacency)
    requires StaysInGrid(adj, 3, 3) && GoalLinksAre(adj)
    ensures BfsLoop(adj, 3, 3, {(0, 0), (1, 0), (2, 0), (1, 1), (0, 1), (2, 1)}, [((0, 2), Some((0, 1)))]) ==
      Some({(0, 0), (1, 0), (2, 0), (1, 1), (0, 1), (2, 1), (0, 2), (1, 2), (2, 2)})
  {
    GoalCells();
    GoalQueuesBottom();
    GoalStep(adj, {(0, 0), (1, 0), (2, 0), (1, 1), (0, 1), (2, 1)}, [((0, 2), Some((0, 1)))],
      (0, 2), Some((0, 1)), [], [(1, 2), (0, 1)],
      {(0, 0), (1, 0), (2, 0), (1, 1), (0, 1), (2, 1), (0, 2)},
      [((1, 2), Some((0, 2)))]);
    GoalStep(adj, {(0, 0), (1, 0), (2, 0), (1, 1), (0, 1), (2, 1), (0, 2)}, [((1, 2), Some((0, 2)))],
      (1, 2), Some((0, 2)), [], [(0, 2), (2, 2)],
      {(0, 0), (1, 0), (2, 0), (1, 1), (0, 1), (2, 1), (0, 2), (1, 2)},
      [((2, 2), Some((1, 2)))]);
    GoalStep(adj, {(0, 0), (1, 0), (2, 0), (1, 1), (0, 1), (2, 1), (0, 2), (1, 2)}, [((2, 2), Some((1, 2)))],
      (2, 2), Some((1, 2)), [], [(1, 2)],
      {(0, 0), (1, 0), (2, 0), (1, 1), (0, 1), (2, 1), (0, 2), (1, 2), (2, 2)},
      []);
  }

  /**
   * The breadth-first loop over those links, pop by pop: each pop finds
   * an unvisited cell whose only visited link is its predecessor, so no
   * cycle is reported and the queue empties with all nine cells visited.
   */
  lemma GoalLoop(adj: Adjacency)
    requires StaysInGrid(adj, 3, 3) && GoalLinksAre(adj)
    ensures BfsLoop(adj, 3, 3, {}, [((0, 0), None)]) ==
      Some({(0, 0), (1, 0), (2, 0), (1, 1), (0, 1), (2, 1), (0, 2), (1, 2), (2, 2)})
  {
    GoalLoopTop(adj);
    GoalLoopMiddle(adj);
    GoalLoopBottom(adj);
  }

  /**
   * goal_test of the final solver accepts the goal board: the search from
   * the corner reports no cycle and reaches every cell, so the network is
   * one tree over the nine cells.
   */
  lemma GoalSearch()
    ensures Shaped(GoalGrid(), 3, 3) && Shaped(GoalExplored(), 3, 3)
    ensures Bfs(GoalGrid(), GoalExplored(), 3, 3, (0, 0))
  {
    GoalShaped();
    var adj := ExploredLinks(GoalGrid(), GoalExplored(), 3, 3);
    GoalLinks();
    ExploredLinksStayInGrid(GoalGrid(), GoalExplored(), 3, 3);
    GoalLoop(adj);
    GoalCells();
    var all := {(0, 0), (1, 0), (2, 0), (1, 1), (0, 1), (2, 1), (0, 2), (1, 2), (2, 2)};
    assert forall i, j :: 0 <= i < 3 && 0 <= j < 3 ==> (i, j) in all by {
      forall i, j | 0 <= i < 3 && 0 <= j < 3 ensures (i, j) in all {
        assert (i, j) in AllCells(3, 3);
      }
    }
    BfsAnswer(GoalGrid(), GoalExplored(), 3, 3, (0, 0));
  }
}
