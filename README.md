# Pipe Mania solver core, modelled in Dafny

This project models the core of a solver for the pipe-rotation puzzle Pipe
Mania. It covers the final solver (`src/pipe.py`) and its drafts:

- `base/SUBMISSAO_DIAG.py`, the rectangular draft with `unique_grid` and `is_loop`;
- `base/dfs_recursiva.py`, the depth-first draft with pairwise side checks;
- `base/pipe.py`, the draft with `validateBorders`;
- the root `pipe.py`, with its adjacency lookups and tab-separated parser.

Each cell of the grid holds a two-letter code. The first letter names the
family: F (terminal), B (tee), V (elbow) or L (straight). The second names
the orientation: C, B, E or D (up, down, left, right), or H or V for straights.

## What is modelled

**Codes and tables.** `Code` is a datatype of the fourteen codes, and
`Opens` gives the directions each one opens toward. Every table of the
source is a function over `Code`:

- the corner and edge tables;
- the four neighbour tables;
- `get_all_rotations`;
- `piece_restrictions` and `f_piece_restrictions`.

Each table is proved against an independent reference stated in terms of
`Opens`. A table's `None` results, and the lower table's missing final
return, are kept.

**Candidates.** `get_valid_rotations_pos`, `get_valid_rotations_neighbors`
and `get_valid_rotations` are modelled as functions over a snapshot of the
explored grid. They are parameterised by the pattern rule: all families in
the final solver, terminals only in the diagonal draft, none in the
depth-first draft.

**Errors.** Where the source would raise, the model returns an `Err`:

- `extend(None)` on a corner table;
- `for rot in None` on the lower table of a terminal above a fixed FC.

**The final solver's board** is the class `Solver.Board`. Its grid and
explored grid are `array2` fields, alongside the flags and counters. The
methods update the board in place, with the source's loops, and each is
proved to equal a specification function:

- `actions` matches `Scan.Actions`: a row-major propagation pass, then a scan by anti-diagonals.
- `result` matches `Place`/`Commit`.
- `bfs` matches `Traversal.BfsLoop`.
- `goal_test` and `h` are modelled as well.

Lemmas about those functions state what the source promises: forced runs,
visiting order, branch shape, dead ends, cycle and connectivity detection.

**The diagonal draft** is `Diag.DiagBoard`. It wraps a `Solver.Board`, adds
`unique_grid` as a second `array2`, and models `is_loop` as a queue loop.

**The depth-first draft** is `Dfs.DfsBoard`. It covers:

- the pairwise side checks;
- the `valid_positions` list, and `goal_test`;
- the weighted 4-tuple candidates;
- `result`.

**The bordered draft** is `Base.BaseBoard`. It covers:

- `validateBorders`, as in-place loops over the grid;
- the duplicate-producing neighbour loop, over the draft's own left and right tables as written (see Findings);
- `get_valid_rotations`, with its side effect on `valid_positions`;
- the row-major `actions`;
- `goal_test` and `result`.

**The text format** is modelled by `Text`: the adjacency lookups, the
parser, and `print` read as a serialiser.

The code behaves as follows, and the model with it:

- `get_reachable_explored` and `get_reachable` follow a connector toward a neighbour. A link is followed even when the neighbour does not open back.
- `bfs` sets `invalid` on success as well as on failure.
- A contradiction can raise an exception, through `extend(None)` or the lower table's `None`. It is not always turned into the `invalid` flag.
- `goal_test` fails (`len(None)`) on a board that no action led to.
- A wavefront pass that completes returns one batch of the moves it fixed. The batch may be empty.
- A wavefront pass stuck after some forced moves returns those moves as single actions. The board is not marked invalid.

## Model

| member | source | states |
|---|---|---|
| Pieces.OpensAsReachableLists | src/pipe.py:92-114 | A code opens up, down, right or left exactly when it is in the corresponding membership list of get_reachable_explored. |
| Pieces.CodeWithConnectors | src/pipe.py:631-660 | Reading a code's connectors back gives the code. Together with SameConnectorsSameCode, an orientation is determined by its connectors. |
| Pieces.SameConnectorsSameCode | src/pipe.py:631-660 | Two codes that open toward the same directions are equal. |
| Pieces.ConnectorCount | src/pipe.py:631-660 | A code has as many connectors as its family's arity: terminal 1, elbow 2, straight 2, tee 3. |
| Pieces.AllRotations | src/pipe.py:631-660 | get_all_rotations lists exactly the codes of the piece's family, without repetition: four, or two for straights. |
| Pieces.DistinctMeaning | src/pipe.py:631-660 | The no-repetition predicate used for every table means that two positions hold different codes. |
| Pieces.NameRoundTrip | pipe.py:42-52 | Reading back the two-letter text of a code gives the code. |
| Pieces.FromName | pipe.py:42-52 | Any code read from a token has that token as its two-letter name. |
| Tables.UpperLeftCornerActions | src/pipe.py:224-240 | None exactly when every orientation of the family points out of the corner, that is for tees and straights. Otherwise it lists exactly the piece's orientations opening neither up nor left, without repetition: two terminals or one elbow. |
| Tables.UpperRightCornerActions | src/pipe.py:242-258 | The same for the upper right corner: up and right. |
| Tables.LowerLeftCornerActions | src/pipe.py:260-276 | The same for the lower left corner: down and left. |
| Tables.LowerRightCornerActions | src/pipe.py:278-294 | The same for the lower right corner: down and right. |
| Tables.UpperEdgeActions | src/pipe.py:296-320 | Exactly the piece's orientations not opening up, without repetition: three terminals, two elbows, one tee or one straight. |
| Tables.LowerEdgeActions | src/pipe.py:322-346 | The same for the lower edge. |
| Tables.LeftEdgeActions | src/pipe.py:348-372 | The same for the left edge. |
| Tables.RightEdgeActions | src/pipe.py:374-398 | The same for the right edge. |
| Tables.UpperTerminalActions | src/pipe.py:414-423 | The terminal branch of the upper table. It gives [] when the neighbour is a terminal facing the cell. Otherwise it gives exactly the terminals that agree with the neighbour: each opens toward it iff it opens back. |
| Tables.LowerTerminalActions | src/pipe.py:472-480 | The terminal branch of the lower table. It gives None exactly when the neighbour is FC, the missing final return. Otherwise it gives the agreeing terminals, or [] for a facing terminal. |
| Tables.LeftTerminalActions | src/pipe.py:527-535 | The terminal branch of the left table, as for the upper one. |
| Tables.RightTerminalActions | src/pipe.py:584-592 | The terminal branch of the right table, as for the upper one. |
| Tables.UpperNeighbourActions | src/pipe.py:402-458 | [] for two facing terminals. Otherwise exactly the piece's orientations that agree with the fixed upper neighbour, none repeated, and at least one. |
| Tables.LowerNeighbourActions | src/pipe.py:460-513 | None exactly for a terminal above FC. Otherwise as the upper table, for the lower neighbour. |
| Tables.LowerJointActions | src/pipe.py:483-513 | The tee, elbow and straight branches of the lower table give exactly the agreeing orientations. |
| Tables.LeftNeighbourActions | src/pipe.py:515-570 | As the upper table, for the left neighbour. |
| Tables.RightNeighbourActions | src/pipe.py:572-627 | As the upper table, for the right neighbour. |
| Tables.TerminalPointsBack | src/pipe.py:414-423 | A terminal next to a fixed non-terminal that opens toward it is forced to the single orientation pointing back at it. |
| Tables.UpperPointsBack | src/pipe.py:414-423 | The upper table forces the terminal that points back, as TerminalPointsBack states. |
| Tables.LowerPointsBack | src/pipe.py:472-480 | The same for the lower table. |
| Tables.LeftPointsBack | src/pipe.py:527-535 | The same for the left table. |
| Tables.RightPointsBack | src/pipe.py:584-592 | The same for the right table. |
| Boundary.BoundaryActions | src/pipe.py:796-846 | None exactly at a corner holding a tee or a straight, the extend(None) raise. Some([]) exactly off the border. On the border it is non-empty, without repetition, and of the piece's family. On grids of at least 2 x 2 it lists exactly the orientations with no connector leaving the grid. |
| Candidates.Filter | src/pipe.py:923 | The list comprehension keeps exactly the codes of the first list that the second has, keeps the first list free of repetition, and never lengthens it. |
| Candidates.IntersectAll | src/pipe.py:919-923 | The running intersection holds exactly the codes of the first list that every later list holds. |
| Candidates.NonEmpty | src/pipe.py:875-916 | Only non-empty neighbour lists set their exists flag, so an empty table is no constraint. |
| Candidates.SideList | src/pipe.py:875-911 | One side of get_valid_rotations_neighbors. None only for a terminal above a fixed FC. Empty exactly when the side has no fixed neighbour or faces a terminal. Otherwise exactly the agreeing orientations. |
| Candidates.IntersectionMeaning | src/pipe.py:914-923 | A code of the piece's family lies in every non-empty side list iff it agrees with every fixed neighbour. |
| Candidates.NeighbourIntersection | src/pipe.py:875-927 | Err exactly for a terminal above FC. Otherwise exactly the codes of the piece's family that agree with every fixed neighbour, none repeated. This includes every rotation when no side constrains. |
| Candidates.TerminalPattern | src/pipe.py:709-746 | None exactly with 0 or 4 terminal neighbours. Otherwise exactly the terminals pointing at no terminal neighbour. |
| Candidates.ElbowPattern | src/pipe.py:749-772 | Exactly the elbows pointing at no more than one terminal neighbour. When None with at most three such neighbours, every elbow qualifies. |
| Candidates.StraightPattern | src/pipe.py:774-794 | Exactly the straights pointing at no more than one terminal neighbour. When None with at most three, every straight qualifies. |
| Candidates.PieceRestrictions | src/pipe.py:662-794 | Never None, and a repetition-free sublist of the piece's rotations. All rotations for tees or with four terminal neighbours. Otherwise exactly the rotations pointing at no more terminal neighbours than the family allows. |
| Candidates.ThreeTerminalNeighboursForce | src/pipe.py:738-746 | A terminal with exactly three terminal neighbours is forced to point at the remaining side. |
| Candidates.FPieceRestrictions | base/SUBMISSAO_DIAG.py:858-924 | None exactly for non-terminals and for terminals with 0 or 4 terminal neighbours. Otherwise exactly the terminals pointing at no terminal neighbour. |
| Candidates.NeighbourCandidates | src/pipe.py:848-935 | Err exactly for a terminal above a fixed FC. Otherwise, none repeated, exactly the codes of the family that agree with every fixed neighbour and pass the pattern rule. The diagonal draft (base/SUBMISSAO_DIAG.py:981-1062) is this function with the terminal-only rule. |
| Candidates.ValidRotations | src/pipe.py:937-976 | Ok([]) for an explored cell. Err exactly when an unexplored cell meets one of the two raising cases. Every tuple is at the cell's own (row, col). |
| Candidates.ValidRotationsMeaning | src/pipe.py:937-976 | The codes are distinct, of the piece's family, agree with every fixed neighbour and pass the pattern rule. On grids of at least 2 x 2 they are exactly the admissible codes: inside the grid, agreeing, allowed. |
| Candidates.ValidRotationsCodes | src/pipe.py:951-974 | The codes are the boundary list, in its order, filtered by the neighbour list, or the neighbour list off the border. |
| Candidates.ValidRotationsSound | src/pipe.py:937-976 | Every candidate is of the piece's family, agrees with every fixed neighbour and passes the pattern rule. |
| Candidates.ValidRotationsComplete | src/pipe.py:937-976 | On grids of at least 2 x 2, every admissible code is a candidate, and only those are. |
| Grids.CommitAt | src/pipe.py:1216-1231 | Committing moves to the explored grid leaves at each cell the last move's code there, or the old value. |
| Grids.CommitConcat | src/pipe.py:1216-1231 | Committing a + b is committing a, then b. |
| Grids.CommitSnoc | src/pipe.py:1226-1231 | Committing one more move writes its code at its cell over the earlier commits. |
| Grids.SetCellMeaning | src/pipe.py:1063 | Writing one cell changes that cell and nothing else. |
| Grids.FromRows | src/pipe.py:20-58 | Building an array2 from rows gives an array whose rows are exactly those rows. |
| Text.AdjacentVertical | pipe.py:23-27 | The value above is None iff row = 0. The value below is None iff row is the last. Otherwise they are the neighbours' values. The same code is at base/dfs_recursiva.py:71-75. |
| Text.AdjacentHorizontal | pipe.py:29-33 | The left value is None iff col = 0, the right value iff col is the last. Otherwise they are the neighbours' values. The same code is at base/dfs_recursiva.py:77-81. |
| Text.ParsePrinted | pipe.py:35-52 | For at least one row, no empty row and whitespace-free tokens, parse_instance inverts what print writes. |
| Text.Split | pipe.py:42-52 | Splitting always gives at least one part. |
| Text.SerialiseLines | pipe.py:35-38 | print writes the rows, each joined by tabs, joined by newlines, with a final newline. |
| Text.SplitJoin | pipe.py:42-52 | Splitting a joined list on a separator that no part contains gives the parts back. |
| Text.SampleParses | pipe.py:82 | The sample string parses to a 3 x 3 grid, whose cell (1, 1) has BC on its left and LV on its right. |
| Traversal.ReachableExploredMeaning | src/pipe.py:81-114 | get_reachable_explored gives exactly the explored in-grid neighbours on the sides the code opens toward, whether or not they open back. The same code is at base/SUBMISSAO_DIAG.py:122-155. |
| Traversal.NeighboursMeaning | base/SUBMISSAO_DIAG.py:157-182 | get_reachable gives exactly the in-grid neighbours on the sides the code opens toward, explored or not. |
| Traversal.KeepInGridMembers | src/pipe.py:113-114 | The closing comprehension keeps exactly the positions inside the grid. |
| Traversal.EnqueueMeaning | src/pipe.py:1167-1173 | The inner loop of bfs reports a cycle exactly when a link other than the one back to the predecessor is visited. Otherwise it keeps the queue in front and queues every other link behind the current cell. |
| Traversal.BfsLoopMeaning | src/pipe.py:1159-1173 | From a state keeping the loop invariant, a loop that ends without a cycle leaves the visited cells closed under the links, holding every queued cell, and all reachable from the source. |
| Traversal.BfsMeaning | src/pipe.py:1142-1183 | bfs answers True iff no cycle is reported and every explored cell is reachable from the source along get_reachable_explored links. The visited cells are then exactly those reachable. |
| Traversal.ClosedHoldsReachable | src/pipe.py:1159-1173 | A set closed under the links that holds the source holds every cell reachable from it. |
| Traversal.IsLoopMeaning | base/SUBMISSAO_DIAG.py:68-94 | is_loop is False iff some cell reachable from (row, col) along get_reachable links to an unexplored cell. |
| Traversal.LoopSearchMeaning | base/SUBMISSAO_DIAG.py:81-94 | From a state keeping the loop invariant, is_loop's queue loop ends as IsLoopMeaning states. |
| Traversal.QueueUnvisited | base/SUBMISSAO_DIAG.py:88-92 | None exactly when a link leads to an unexplored cell. Otherwise the queue is kept in front and exactly the unvisited links are queued behind it. |
| Scan.WavefrontVisitsEveryCell | src/pipe.py:1085-1087 | The anti-diagonal loops visit every cell of the grid exactly once, in (row + col, row) order. |
| Scan.CandidatesSound | src/pipe.py:937-976 | get_valid_rotations offers nothing at an explored cell, and only moves at the cell asked about. |
| Scan.ForcedFresh | src/pipe.py:1055-1069 | A forced run's moves are on the grid, at cells not explored before the run, and at pairwise different cells. |
| Scan.PropagateForces | src/pipe.py:1055-1069 | The propagation pass commits a forced run, in row-major order: each move was the only candidate of its cell, given the moves before it. |
| Scan.PropagateQuiet | src/pipe.py:1055-1069 | The pass commits nothing iff, from its start on, no cell has a single candidate and none raises. |
| Scan.WavefrontOutcome | src/pipe.py:1085-1114 | The diagonal pass commits a forced run in wavefront order. It either passes every cell, leaving all explored, or stops at the first unexplored cell with several candidates or with none, and returns them. |
| Scan.ActionsOutcome | src/pipe.py:1035-1114 | On a valid board, actions either marks the board invalid at a cell with no candidate, or returns one of four shapes after a forced prefix: the propagation batch, one batch after a complete pass, one batch per candidate of the first ambiguous cell, or the prefix as single moves. |
| Scan.ActionsEmptyIffInvalid | src/pipe.py:1050-1114 | actions returns no action iff the step marks the board invalid. |
| Scan.WaveStepOutcome | src/pipe.py:1085-1114 | The diagonal part alone either marks the board invalid at a cell with no candidate or returns one of the shapes ActionsOutcome lists. |
| Scan.BranchActions | src/pipe.py:1093-1099 | One batch per choice, each the forced prefix followed by that choice. |
| Solver.Board.constructor | src/pipe.py:20-58 | A square board: num_rows = num_cols = len(grid), board_size = len(grid)², nothing explored, not invalid, propagation phase on, no last action. |
| Solver.Board.Sized | base/SUBMISSAO_DIAG.py:30-66 | A board of rows x cols with board_size = rows × cols, nothing explored and nothing fixed. |
| Solver.Board.ForcedPass | src/pipe.py:1055-1069 | The nested row and column loops commit exactly Propagate's moves into the explored grid, and raise exactly when it does. |
| Solver.Board.ForcedRow | src/pipe.py:1056-1066 | One pass of the column loop carries Propagate from (row, 0) over to (row + 1, 0), with the row's forced moves committed. |
| Solver.Board.WavePass | src/pipe.py:1085-1111 | The anti-diagonal loops end with Wavefront's outcome, with the forced moves committed to the explored grid. |
| Solver.Board.WaveCell | src/pipe.py:1087-1111 | One cell of the wavefront stops the pass exactly on a branch, a dead end or a raise, and otherwise carries Wavefront on to the next row. |
| Solver.Board.Diagonal | src/pipe.py:1086-1111 | One anti-diagonal carries Wavefront on to the next diagonal, or stops with its outcome. |
| Solver.Board.DiagonalPass | src/pipe.py:1085-1114 | The diagonal part of actions returns WaveStep's actions, explored grid and invalid flag. |
| Solver.Board.Actions | src/pipe.py:1035-1114 | actions returns exactly Scan.Actions's actions and leaves its explored grid and flags. It raises exactly when that does. |
| Solver.Fork | src/pipe.py:1094-1099 | The loop over the candidates builds BranchActions. |
| Solver.Board.Apply | src/pipe.py:1218-1231 | The loop of result writes each move into the grid and the explored grid and counts one explored cell per move. |
| Solver.Board.Mark | src/pipe.py:1219-1223 | One move writes its code into the grid and the explored grid at its cell, and counts one explored cell. |
| Solver.Board.Inherit | src/pipe.py:1206-1216 | The child takes a copy of the parent's explored grid, its phase flag, the action's length, the parent's explored count and the action. |
| Solver.Board.Result | src/pipe.py:1185-1233 | The parent only becomes invalid. The child is fresh and of the same shape, and holds the action's moves in both grids. Its explored count grew by the number of moves, its action count is the action's length, and its last action is the action. |
| Solver.Board.Covered | src/pipe.py:1175-1180 | The final loops of bfs answer whether every explored cell was visited. |
| Solver.Search | src/pipe.py:1159-1173 | The deque loop of bfs answers BfsLoop's verdict and leaves visited true exactly on BfsLoop's visited cells. |
| Solver.Expand | src/pipe.py:1167-1173 | The for loop over the reachable cells is Enqueue. |
| Solver.Visit | src/pipe.py:1162-1173 | Popping an unvisited cell marks it visited, then either reports a cycle as BfsLoop does, or carries BfsLoop on with the grown queue. |
| Solver.Board.Bfs | src/pipe.py:1142-1183 | bfs answers Traversal.Bfs and always sets invalid. The same code is at base/SUBMISSAO_DIAG.py:1246-1287. |
| Solver.Board.GoalTest | src/pipe.py:1116-1140 | False while some cell is unexplored. Otherwise an error when there is no last action (len(None)). Otherwise bfs from the last action's last cell, or (0, 0) for an empty batch, and an error when that cell is off the board. The same code is at base/SUBMISSAO_DIAG.py:1219-1241. |
| Solver.Board.H | src/pipe.py:1235-1249 | board_size + 1 on an invalid board, else board_size - explored_count. |
| Diag.DiagBoard.constructor | base/SUBMISSAO_DIAG.py:30-66 | Rows from the grid, columns from its first row, board_size = rows × cols. The explored grid and unique_grid have the grid's shape, empty. |
| Diag.DiagBoard.Actions | base/SUBMISSAO_DIAG.py:1151-1216 | actions is Scan.Actions with the terminal-only pattern rule, and every code it commits, or chooses at a branch, is also written into unique_grid. |
| Diag.DiagBoard.Passes | base/SUBMISSAO_DIAG.py:1168-1216 | On a valid board, the two passes give Scan.Actions and mirror its moves into unique_grid. |
| Diag.DiagBoard.ForcedActions | base/SUBMISSAO_DIAG.py:1168-1183 | When the propagation pass fixes something, it is the whole step. Otherwise it fixes nothing and changes neither grid. |
| Diag.DiagBoard.ForcedPass | base/SUBMISSAO_DIAG.py:1169-1176 | The row-major loop commits Propagate's moves into both the explored grid and unique_grid. |
| Diag.DiagBoard.DiagonalPass | base/SUBMISSAO_DIAG.py:1185-1216 | The anti-diagonal loops give WaveStep, and mirror the forced moves and every branch choice into unique_grid. |
| Diag.DiagBoard.Mirror | base/SUBMISSAO_DIAG.py:1168-1216 | The unique_grid writes are Commit of those moves. |
| Diag.MirrorAgrees | base/SUBMISSAO_DIAG.py:1168-1216 | Every cell actions fixes in the explored grid holds the same code in unique_grid afterwards. |
| Diag.BranchMirror | base/SUBMISSAO_DIAG.py:1191-1197 | Several batches share the forced prefix and differ only in the last move, all at one cell. unique_grid then holds the last choice at that cell. |
| Diag.OnlyBranchForks | base/SUBMISSAO_DIAG.py:1191-1197 | Several batches come only from a branch of the diagonal pass. |
| Diag.WaveBranch | base/SUBMISSAO_DIAG.py:1191-1197 | A branch of the wavefront has at least two choices at one cell. The step is one batch per choice, and unique_grid receives the prefix and then every choice in turn. |
| Diag.MirroredInGrid | base/SUBMISSAO_DIAG.py:1174-1214 | Every unique_grid write is at a cell of the board. |
| Diag.DiagBoard.Result | base/SUBMISSAO_DIAG.py:1289-1337 | As in the final solver, and the child's unique_grid is a copy of the parent's. The child's h is the action's length. |
| Diag.DiagBoard.Copy | base/SUBMISSAO_DIAG.py:1319-1320 | The child keeps the copied board and a fresh copy of unique_grid. |
| Diag.DiagBoard.H | base/SUBMISSAO_DIAG.py:1339-1343 | board_size + 1 on an invalid board, else action_count. |
| Diag.DiagBoard.IsLoop | base/SUBMISSAO_DIAG.py:68-94 | The queue loop answers Traversal.IsLoop. |
| Diag.Enlist | base/SUBMISSAO_DIAG.py:88-92 | The loop over the popped cell's links is QueueUnvisited: None at an unexplored link, else the unvisited links queued. |
| Diag.LoopPops | base/SUBMISSAO_DIAG.py:84-92 | One pop of the queue either finds an unexplored link, and is_loop answers False, or carries the search on with a smaller measure. |
| Dfs.ConnectedLeftAsWritten | base/dfs_recursiva.py:96-130 | is_connected_left as written. Off the left edge, a cell with a left connector passes iff the neighbour opens right. A cell without one passes iff the neighbour is in the draft's list, which holds FD. |
| Dfs.LeftCheckAcceptsMismatch | base/dfs_recursiva.py:107 | The grid [[FD, FC]] passes the check as written, although the two disagree. The corrected check rejects it. |
| Dfs.ConnectedLeft | base/dfs_recursiva.py:96-130 | Corrected is_connected_left. Off the left edge, True iff the cell and its left neighbour agree. On the edge, True iff no connector points left, nor up in the corner. |
| Dfs.ConnectedRight | base/dfs_recursiva.py:133-167 | Off the right edge, True iff the cell and its right neighbour agree. On the edge, True iff no connector points right, nor up in the upper corner. |
| Dfs.ConnectedUpper | base/dfs_recursiva.py:169-203 | Below the top row, True iff the cell and the cell above agree. On the top row, no connector points up, nor sideways out at the corners. |
| Dfs.ConnectedLower | base/dfs_recursiva.py:205-239 | Above the bottom row, True iff the cell and the cell below agree. On the bottom row, no connector points down, nor sideways out at the corners. |
| Dfs.IsConnected | base/dfs_recursiva.py:1219-1232 | The conjunction of the four side checks is exactly: no connector leaves the grid, and the cell agrees with every neighbour. |
| Dfs.ValidatedMeaning | base/dfs_recursiva.py:380-392 | validate_pipe adds only its cell, keeps the list in front, is idempotent, and keeps the list free of repetition. |
| Dfs.DfsBoard.ValidatePipe | base/dfs_recursiva.py:380-392 | The method updates valid_positions as Validated. |
| Dfs.DfsBoard.constructor | base/dfs_recursiva.py:30-57 | A new board holds the grid, no fixed cells, nothing explored and heuristic 0. |
| Dfs.DfsBoard.UniqueRotations | base/dfs_recursiva.py:59-68 | The counting loop returns CountUnique. |
| Dfs.CountUniqueMeaning | base/dfs_recursiva.py:59-68 | The count is at most the number of tuples. It is 0 iff no tuple has weight 1, and all of them iff every tuple does. |
| Dfs.FixedView | base/dfs_recursiva.py:367-378 | A cell is fixed iff it is listed in valid_positions, and then shows its grid code. |
| Dfs.DfsValidRotations | base/dfs_recursiva.py:972-1013 | [] for a fixed cell. Err exactly in the final solver's raising cases. Every tuple sits at the cell and weighs len(neighbours) + len(pos) on the border, or len(neighbours) inside. |
| Dfs.DfsValidRotationsMeaning | base/dfs_recursiva.py:839-1013 | The codes are those of the final solver's get_valid_rotations with no pattern rule: distinct, and on grids of at least 2 x 2 exactly the codes of the family that stay inside and agree with every fixed neighbour. |
| Dfs.DfsMatchesCandidates | base/dfs_recursiva.py:972-1013 | The draft's candidates fail exactly when the final solver's do, and have the same codes in the same order. |
| Dfs.Goal | base/dfs_recursiva.py:1135-1163 | The corrected goal: True when every cell is fixed. Otherwise True iff every unfixed cell is well connected. |
| Dfs.IsConnectedAsWrittenMeaning | base/dfs_recursiva.py:1219-1232 | The four side checks of isConnected, with the left one as written, pass together iff IsConnectedAsWritten holds: the reference verdict everywhere except at a left slip, where the cell has no left connector and its left neighbour is FD or FE. There FE is always refused, and FD passes whenever the other three sides agree. |
| Dfs.GoalAsWritten | base/dfs_recursiva.py:1135-1163 | goal_test as written: True when every cell is fixed. Otherwise True iff every unfixed cell passes isConnected as written. |
| Dfs.GoalsAgree | base/dfs_recursiva.py:1135-1163 | When no unfixed cell has a left slip, goal_test as written and the corrected goal agree. |
| Dfs.GoalsDiffer | base/dfs_recursiva.py:107 | On [[FD, FB], [FC, FC]] with (0, 1) unfixed, goal_test as written accepts the board and the corrected goal rejects it, since FD opens toward FB. |
| Dfs.DfsBoard.GoalTest | base/dfs_recursiva.py:1135-1163 | The nested loops return GoalAsWritten. |
| Dfs.DfsBoard.CellSettled | base/dfs_recursiva.py:1156-1161 | One cell of the inner loop: true iff the cell is fixed or passes isConnected as written. |
| Dfs.DfsBoard.RowSettled | base/dfs_recursiva.py:1155-1161 | The inner loop is True iff every cell of the row is fixed or passes isConnected as written. |
| Dfs.DfsBoard.PieceConnected | base/dfs_recursiva.py:1219-1232 | The four side checks, with the left one as written, give IsConnectedAsWritten (the reference verdict except at a left slip). |
| Dfs.DfsBoard.Result | base/dfs_recursiva.py:1167-1206 | The child grid is a copy with the action's code at its cell. The fixed list is the parent's. The action's cell is appended to explored, and the heuristic is the action's weight. |
| BaseTables.LeftActionsAsWritten | base/pipe.py:595-652 | The left table as written. Next to VD or VB, a terminal gets [] and other pieces get the orientations without a left connector. Elsewhere it equals the corrected table. |
| BaseTables.LeftTableMissesElbows | base/pipe.py:612 | Next to a fixed VD the table as written offers a tee only BD, which has no left connector. The corrected table offers the three tees that do. A terminal next to VB gets [] instead of FE. |
| BaseTables.RightActionsAsWritten | base/pipe.py:654-711 | The right table as written. A terminal next to FD, FB, BD or LV gets []. Elsewhere it equals the corrected table. |
| BaseTables.RightTableEmptiesTerminals | base/pipe.py:675-676 | A terminal left of a fixed LV gets [] as written, where the corrected table gives FB, FE and FC. |
| BaseNeighbours.SideTable | base/pipe.py:783-809 | A fixed neighbour's table, looked up with the draft's own tables: its left and right tables as written (BaseTables.LeftActionsAsWritten, BaseTables.RightActionsAsWritten). None exactly for a terminal above FC. Otherwise only orientations of the piece. |
| BaseNeighbours.SideTableAsWritten | base/pipe.py:802-809 | The draft's lookups: a BC right of a fixed VD is offered only BD, and a terminal left of a fixed LV is offered nothing. |
| BaseNeighbours.NeighbourListsMeaning | base/pipe.py:781-809 | The collected lists hold orientations of the piece only. A None is collected exactly for a terminal above a fixed FC. A fixed upper neighbour's table comes first. |
| BaseNeighbours.NeighbourLists | base/pipe.py:781-809 | At most four lists, and none exactly when no neighbour is fixed. |
| BaseNeighbours.EntryTable | base/pipe.py:783-809 | Every collected list is the table of a side whose neighbour is fixed. |
| BaseCopies.FirstListCopiesMeaning | base/pipe.py:807-821 | [] with no fixed neighbour. It fails only on a None table, and succeeds when there is none. It keeps exactly the codes of the first list other than the piece's own. |
| BaseCopies.FirstListCopiesCount | base/pipe.py:807-821 | Each code occurs as often as in the first list times the number of lists holding it, and the piece's own code never. This is a count, not an intersection. |
| BaseCopies.CopiesCount | base/pipe.py:816-819 | Each code of the scanned list is added as often as it occurs there times the lists holding it, and the piece's own code never. |
| BaseCopies.CopyLoop | base/pipe.py:812-821 | The nested loops compute FirstListCopies. |
| BaseCopies.FirstListLoop | base/pipe.py:815-819 | The loop over the first list raises when some list is None and the first list is not empty. Otherwise it gives the copies. |
| BaseCopies.RotCopies | base/pipe.py:816-819 | The inner loop adds the code once per list holding it, unless it is the piece's own code. It raises on a None list. |
| BaseBorders.BorderCodeMeaning | base/pipe.py:197-285 | validateBorders only turns pieces, and never changes a piece it does not fix. On boards of at least 2 x 2, each fixed piece takes the single orientation of its family that points inside. |
| BaseBorders.BorderGrid | base/pipe.py:197-285 | The reference grid has the board's shape and holds at each cell the code validateBorders leaves there. |
| BaseBorders.BorderGridIdempotent | base/pipe.py:197-285 | A second validateBorders changes nothing and fixes the same cells. |
| BaseBorders.TurnedMeaning | base/pipe.py:213-219 | Turning a piece and validating its cell changes that cell only, and adds only that cell to the list, keeping the old entries in place. |
| BaseBorders.RowsLoopMeaning | base/pipe.py:209-228 | The column loop lays horizontal and lists every straight of the top and bottom rows, corners excepted, and changes nothing else. |
| BaseBorders.ColumnsLoopMeaning | base/pipe.py:230-249 | The row loop lays vertical and lists every straight of the side columns, corners excepted, and changes nothing else. |
| BaseBorders.CornersMeaning | base/pipe.py:251-285 | The corner steps turn each corner elbow to VB, VE, VD or VC (the last corner it is), list those cells, and change nothing else. |
| BaseBorders.BordersMeaning | base/pipe.py:197-285 | validateBorders leaves BorderGrid, lists exactly the old cells and the border cells it fixes, and keeps the old entries in place without repetition. |
| BaseGoals.BaseGoalMeaning | base/pipe.py:932-948 | For a repetition-free list of board cells, goal_test holds iff the board has a cell and every cell is listed. |
| Base.BaseBoard.ValidatePipe | base/pipe.py:180-195 | The method updates valid_positions as Validated: idempotent, no repetition. |
| Base.BaseBoard.Settle | base/pipe.py:213-219 | One turn-and-validate step is Turned. |
| Base.BaseBoard.constructor | base/pipe.py:23-41 | A new board holds the grid and no fixed cells. |
| Base.BaseBoard.ValidateBorders | base/pipe.py:197-285 | The in-place loops leave exactly Borders of the old grid and list. |
| Base.BaseBoard.StraightenRows | base/pipe.py:210-228 | The column loop is RowsLoop. |
| Base.BaseBoard.StraightenColumns | base/pipe.py:231-249 | The row loop is ColumnsLoop. |
| Base.BaseBoard.FixCorner | base/pipe.py:251-285 | One corner step is CornerStep. |
| Base.BaseBoard.NeighbourTables | base/pipe.py:781-809 | The four guarded appends collect NeighbourLists. |
| Base.BaseBoard.SideTables | base/pipe.py:783-809 | One guarded append collects the side's table exactly when the side's neighbour is fixed, with the draft's left and right tables as written. |
| Base.BaseBoard.NeighbourRotations | base/pipe.py:769-821 | get_valid_rotations_neighbors is FirstListCopies of the collected lists. |
| Base.BaseCandidatesMeaning | base/pipe.py:823-861 | Every candidate is a move at the cell to another orientation of the same piece. There are none when no neighbour is fixed. On boards of at least 2 x 2 the candidates point inside, and they agree with a fixed upper neighbour. |
| Base.BaseCandidatesLeftMismatch | base/pipe.py:823-861 | A BC right of a fixed VD, with only that neighbour fixed, gets the single candidate BD, which does not agree with VD. |
| Base.BaseCandidateAt | base/pipe.py:813-861 | Each candidate's code comes from the first neighbour list, differs from the piece's code, and on the border is in the boundary list. |
| Base.BaseCandidatesFail | base/pipe.py:823-861 | The candidates fail only in the final solver's raising cases. |
| Base.BoardRotationsMeaning | base/pipe.py:823-861 | The board's get_valid_rotations only turns the cell's own piece, and fails only where a raise happens. |
| Base.BaseBoard.ValidRotations | base/pipe.py:823-861 | The result is BaseCandidates, and the cell is validated exactly when one candidate remains. |
| Base.ActionsMeaning | base/pipe.py:908-929 | actions only adds board cells to the fixed list, keeping its old entries in place. Its moves turn pieces not fixed on entry and come in row-major order. A failure names a cell not fixed at the end that meets a raising case. |
| Base.ScanMoves | base/pipe.py:922-927 | Every move of a scan from (row, col) turns a piece, not fixed when the scan starts, to another orientation of its family, at a cell not before (row, col). The moves come in row-major order. |
| Base.ScanFails | base/pipe.py:922-927 | A failed scan names a cell not before (row, col), not fixed at the end, that meets a raising case. |
| Base.BaseBoard.Actions | base/pipe.py:908-929 | The nested loops compute Scan of the board's get_valid_rotations from (0, 0), both the moves and the new fixed list. |
| Base.BaseBoard.RowActions | base/pipe.py:923-927 | One row of the loop carries Scan from (row, 0) over to (row + 1, 0). |
| Base.BaseBoard.GoalTest | base/pipe.py:932-948 | goal_test is BaseGoal. |
| Base.BaseBoard.Result | base/pipe.py:950-963 | The child is a copy of the grid with the action's code at its cell, and the fixed list with that cell validated. The parent is unchanged. |
| Worked.GoalParses | base/pipe.py:991 | The goal string parses, with the tab parser, to the 3 x 3 goal board. |
| Worked.GoalCodes | base/pipe.py:991 | Every token of the goal string names the code of the goal board at its cell. |
| Worked.GoalConnected | base/pipe.py:991-992 | Every piece of the goal board agrees with each neighbour and no connector leaves the grid. goal_test holds once its nine cells are listed. |
| Worked.GoalLoop | src/pipe.py:1159-1173 | On the links of the goal board, the bfs loop from (0, 0) reports no cycle and ends with all nine cells visited. |
| Worked.GoalSearch | base/pipe.py:991-992 | The bfs of the final solver (src/pipe.py:1142-1183), run from (0, 0) on the goal board with every cell explored, answers True: the network is one tree over the nine cells. |

## Left out

- Reading stdin, printing, colouring, and the time and memory instrumentation and `__main__` blocks: these are I/O and measurement only.
- The external search module (`Problem`, `Node` and the search strategies) is not part of this model. Only the `actions`, `result`, `goal_test` and `h` it calls are modelled.
- `PipeManiaState.__lt__` and the global `state_id` counter: the ordering the search library reads is not part of the core.
- The `actions` of the depth-first draft, with its `np.random.shuffle` and its global `node_test` stack, and that draft's `h` and `node_test` copying in `result`: they are nondeterministic or global state.
- The `is_connected_*` methods of the diagonal draft: they use undefined globals and cannot run.
- The root `pipe.py` module-level script and the `PipeMania` stubs, and `PipeMania.__init__` of `base/pipe.py`, which builds an external `Node`.
- The module-global `board` in the `get_all_rotations` calls is read as the board itself.
- Grids are rectangular: ragged input rows are not modelled.
- Strip and split know only ASCII whitespace.
- Solver.Board.constructor: requires a square grid, as the final solver assumes one (`num_cols = len(grid)`).
- Base.BaseBoard.ValidateBorders: requires non-empty rows, where the source would raise IndexError on the corners.
- The candidate functions take the explored grid as a value. `get_valid_rotations` reading `self.board.explored_grid` is the same board.
- The piece passed to `get_valid_rotations` is taken to be the grid's value at the cell, as every caller passes it.
- The `board.board` self-alias and the `Piece` class are folded into the board.
- Dfs.IsConnected: uses the corrected left check. It is the reference for Dfs.Goal. The board's goal test runs Dfs.IsConnectedAsWritten, as the source does.
- The `h` of `base/pipe.py` is a TODO returning nothing, so it has no model.
- Base.BaseCandidatesMeaning: states agreement only with the upper neighbour. The copies are not an intersection, so agreement with the other neighbours can fail. When the first list is the upper table, agreement holds for that side. With the left and right tables as written, even the first list's side can disagree: see Base.BaseCandidatesLeftMismatch and Findings.

## Findings

The drafts keep their code as written. `Base.BaseBoard` looks its left and
right neighbours up with `BaseTables`. `Dfs.DfsBoard.GoalTest` runs the
left check as written. The corrected members are the tables of the final
solver and the other drafts, which the rest of the model uses, and
`Dfs.ConnectedLeft`, behind the reference goal `Dfs.Goal`.

| source | as written | input that shows it | evidently intended | confidence | as-written member | corrected member |
|---|---|---|---|---|---|---|
| base/dfs_recursiva.py:107 | The list of left neighbours without a right connector holds FD. | Grid [[FD, FC]]: FC at (0, 1) passes, although FD opens right toward it. | FE instead of FD. | not executed; high | Dfs.ConnectedLeftAsWritten, Dfs.LeftCheckAcceptsMismatch, Dfs.GoalsDiffer | Dfs.ConnectedLeft |
| base/pipe.py:612 | `'VD' 'VB'` lacks a comma, so Python joins it into the one string "VDVB". | A fixed VD to the left of a BC: only BD is offered, and it has no left connector. | `'VD', 'VB'`. | not executed; high | BaseTables.LeftActionsAsWritten, BaseTables.LeftTableMissesElbows | Tables.LeftNeighbourActions |
| base/pipe.py:675-676 | The terminal branch's second list names BE, VD, VB, BC and LH. | A terminal left of a fixed LV gets []. | The pieces without a left connector (FC, FB, FD, BD, VD, VB, LV), as in the final solver. | not executed; medium | BaseTables.RightActionsAsWritten, BaseTables.RightTableEmptiesTerminals | Tables.RightNeighbourActions |
