/**
 * goal_test of base/pipe.py: a state is a goal when its list of fixed
 * cells is not empty and as long as the board has cells.
 */
module BaseGoals {
  import opened Pieces
  import opened Grids
  import opened Traversal

  /** goal_test; its implicit None for an empty list is read as false. */
  predicate BaseGoal(vp: seq<Cell>, rows: int, cols: int)
  {
    |vp| > 0 && |vp| == rows * cols
  }

  /**
   * Counting stands for coverage: for a list of cells of the board that
   * names no cell twice, as validatePipe keeps it, the goal holds exactly
   * when the board has a cell and every cell is listed.
   */
  lemma BaseGoalMeaning(vp: seq<Cell>, rows: int, cols: int)
    requires rows >= 0 && cols >= 0
    requires Distinct(vp) && CellsInGrid(vp, rows, cols)
    ensures BaseGoal(vp, rows, cols) <==>
      rows > 0 && cols > 0 && forall i, j :: InGrid(rows, cols, i, j) ==> (i, j) in vp
  {
    var listed := set k | 0 <= k < |vp| :: vp[k];
    var all := AllCells(rows, cols);
    DistinctCard(vp);
    AllCellsCard(rows, cols);
    assert listed <= all by {
      forall x | x in listed ensures x in all {
        var k :| 0 <= k < |vp| && vp[k] == x;
      }
    }
    forall i, j | InGrid(rows, cols, i, j) && (i, j) in listed
      ensures (i, j) in vp
    {
      var k :| 0 <= k < |vp| && vp[k] == (i, j);
    }
    if BaseGoal(vp, rows, cols) {
      SubsetFull(listed, all);
      PositiveFactors(rows, cols);
      forall i, j | InGrid(rows, cols, i, j) ensures (i, j) in vp {
        assert (i, j) in all;
      }
    }
    if rows > 0 && cols > 0 && forall i, j :: InGrid(rows, cols, i, j) ==> (i, j) in vp {
      forall x | x in all ensures x in listed {
        var k :| 0 <= k < |vp| && vp[k] == x;
      }
      assert listed == all;
      PositiveProduct(rows, cols);
    }
  }

  lemma PositiveFactors(rows: int, cols: int)
    requires rows >= 0 && cols >= 0 && rows * cols > 0
    ensures rows > 0 && cols > 0
  {
  }

  lemma PositiveProduct(rows: int, cols: int)
    requires rows > 0 && cols > 0
    ensures rows * cols > 0
  {
  }

  /** A list that names no cell twice has as many cells as entries. */
  lemma {:induction false} DistinctCard(vp: seq<Cell>)
    requires Distinct(vp)
    ensures |set k | 0 <= k < |vp| :: vp[k]| == |vp|
  {
    if |vp| > 0 {
      var rest := vp[1..];
      DistinctCard(rest);
      var s := set k | 0 <= k < |vp| :: vp[k];
      var t := set k | 0 <= k < |rest| :: rest[k];
      assert s == {vp[0]} + t by {
        forall x | x in s ensures x in {vp[0]} + t {
          var k :| 0 <= k < |vp| && vp[k] == x;
          if k > 0 { assert rest[k - 1] == x; }
        }
        forall x | x in t ensures x in s {
          var k :| 0 <= k < |rest| && rest[k] == x;
          assert vp[k + 1] == x;
        }
      }
      assert vp[0] !in t by {
        forall k | 0 <= k < |rest| ensures rest[k] != vp[0] {
          assert rest[k] in rest;
        }
      }
    }
  }

  /** The cells of row i up to column c. */
  function RowCells(i: int, c: int): set<Cell>
  {
    set j | 0 <= j < c :: (i, j)
  }

  lemma {:induction false} RowCellsCard(i: int, c: int)
    requires c >= 0
    ensures |RowCells(i, c)| == c
  {
    if c > 0 {
      RowCellsCard(i, c - 1);
      assert RowCells(i, c) == RowCells(i, c - 1) + {(i, c - 1)};
    }
  }

  /** A board of rows x cols has rows * cols cells. */
  lemma {:induction false} AllCellsCard(rows: int, cols: int)
    requires rows >= 0 && cols >= 0
    ensures |AllCells(rows, cols)| == rows * cols
  {
    if rows > 0 {
      var a := AllCells(rows - 1, cols);
      var r := RowCells(rows - 1, cols);
      AllCellsCard(rows - 1, cols);
      RowCellsCard(rows - 1, cols);
      assert AllCells(rows, cols) == a + r by {
        forall x | x in AllCells(rows, cols) ensures x in a + r {
          AllCellsHas(rows, cols, x);
          AllCellsHas(rows - 1, cols, x);
        }
        forall x | x in a + r ensures x in AllCells(rows, cols) {
          AllCellsHas(rows, cols, x);
          AllCellsHas(rows - 1, cols, x);
        }
      }
      assert a !! r by {
        forall x | x in r ensures x !in a {
          AllCellsHas(rows - 1, cols, x);
        }
      }
      assert rows * cols == (rows - 1) * cols + cols;
    }
  }

  lemma AllCellsHas(rows: int, cols: int, x: Cell)
    ensures x in AllCells(rows, cols) <==> InGrid(rows, cols, x.0, x.1)
  {
    if InGrid(rows, cols, x.0, x.1) {
      assert x == (x.0, x.1);
    }
  }

  /** A subset as large as its superset is the superset. */
  lemma SubsetFull(a: set<Cell>, b: set<Cell>)
    requires a <= b && |a| == |b|
    ensures a == b
  {
    if a != b {
      var x :| x in b && x !in a;
      SubsetCard(a, b - {x});
    }
  }

  lemma {:induction false} SubsetCard(a: set<Cell>, b: set<Cell>)
    requires a <= b
    ensures |a| <= |b|
    decreases |a|
  {
    if a != {} {
      var x :| x in a;
      SubsetCard(a - {x}, b - {x});
    }
  }
}
