# Maze solver: breadth-first search over a character grid

This project models the core of `maze.py` in Dafny and proves properties of
the model:

- the two frontier containers, `CustomStackFrontier` (LIFO) and
  `CustomQueueFrontier` (FIFO);
- the start/goal scan of `load_maze`;
- `neighbors`, which tries up, down, left and right, bounds-tests each
  candidate against the number of rows and the length of the first row, and
  drops walls (`'█'`);
- the breadth-first `solve` loop of `MazeSolver`, with the fields it updates
  (`solution`, `explored`, `num_explored`).

Modules, leaves first:

- `Results`: `Option` and `Result`, which model Python's `None` and raised
  exceptions.
- `MazeGrid`: cells, the four actions and the grid predicates. Also
  `Neighbors` and its filter `KeepPassable` on values, walks through the
  grid, and the marker scan `FindMarkers`.
- `Frontiers`: `Node`, and the two frontier classes over a `seq<Node>` field.
- `Bfs`: the breadth-first invariant on values, with the lemmas that hold it
  across a pass. Also the removal log (`Removal`) that records what each pass
  did.
- `Solver`: the `solve` loop on values (`Run`, which runs it pass by pass
  to its end) and the `MazeSolver` class. `Neighbors` is the `neighbors`
  loop, `Pass` is one pass of the `while` body, `Search` is the loop, and
  `Solve` is `solve`. `Search` ends exactly where `Run` ends. The lemmas
  beside them carry the loop invariant from pass to pass.
- `Scenarios`: two small mazes worked through the model.

The model follows the code as written, including where it accepts unusual input:

- The scan does not reject a maze without, or with several, `'A'`/`'B'`. The
  last marker in row-major order wins, and a missing one stays `None`.
- Ragged rows are not rejected. `neighbors` raises an index error when a
  candidate passes the bounds test but lies past the end of its own row.
  That is `IndexErrorRaised`, and `Solve` proves it happens only on a
  non-rectangular maze.
- `while frontier:` tests an object that defines neither `__len__` nor
  `__bool__`, so it is always true. An unreachable goal therefore ends in
  `remove` raising "Frontier is empty" (`FrontierEmptyRaised`), not in a
  normal return.
- `num_explored` counts every removal, including the nodes dropped as
  already explored. `Solve` proves it grows by exactly the number of removals,
  and that this number is at most one plus four per newly explored cell.
- The wall glyph is `'█'`. Any other character, `'#'` included, is open.
- Line 52 as written (`range(len(maze[i])`) lacks a closing parenthesis. The
  model reads it as the evidently intended `range(len(maze[i]))`.

The main results, on `Solve`:

- Its outcome and the fields it leaves (`explored`, `num_explored`,
  `solution`) are exactly those of `Run`, the loop run on values.
- A returned solution is a walk from the start to the goal through passable
  cells.
- Every cell it adds to `explored` is reachable from the start.
- On a solver whose `explored` set is empty when `solve` is called, the
  solution is no longer than any walk to the goal.
- On such a solver, a drained queue means every reachable cell was
  explored, so no walk reaches the goal.
- A log of removals accounts for `explored` and `num_explored`.

## Model

| member | source | states |
|---|---|---|
| MazeGrid.KeepPassable | maze.py:69-73 | the filter succeeds exactly when no candidate is ragged (would index past its row); a failure names a ragged candidate |
| MazeGrid.KeepPassableContents | maze.py:69-73 | what the filter keeps is no longer than its input, holds exactly the candidates that pass the bounds test and are not walls, and keeps the candidates' order |
| MazeGrid.KeepPassableAppend | maze.py:70-72 | filtering a concatenation filters the parts in turn: the first error wins, otherwise the kept parts are joined |
| MazeGrid.CandidatesCoverActions | maze.py:62-67 | every action appears among the four candidates, paired with the cell one move away |
| MazeGrid.Neighbors | maze.py:60-73 | on values: raises exactly when some move lands on a ragged cell (the error names one); otherwise at most four moves, in up/down/left/right order, each to the cell its action reaches and passable, and a move is listed exactly when its target is passable |
| MazeGrid.RectangularNeighbors | maze.py:71 | on a maze whose rows all have the first row's length, `neighbors` never raises |
| MazeGrid.WalkAppend | maze.py:88-90 | a walk extended by one move onto a passable cell is a walk to that cell |
| MazeGrid.ClosedSetHoldsWalks | maze.py:85-90 | a set holding the start and closed under passable moves holds the end of every walk from the start |
| MazeGrid.FindMarkers | maze.py:50-58 | the start is the last 'A' and the goal the last 'B' in row-major order, and None when there is none |
| MazeGrid.LastMarkerUnique | maze.py:50-58 | the scan's result is determined by the grid: two results for the same marker are equal |
| MazeGrid.StartIsOpen | maze.py:53-54 | the start found by the scan is a cell of the grid and not a wall |
| Frontiers.HasState | maze.py:19 | true exactly when some node in the list has the given state |
| Frontiers.StackFrontier.constructor | maze.py:12-13 | a new frontier is empty |
| Frontiers.StackFrontier.Add | maze.py:15-16 | the node is appended at the end, the rest unchanged |
| Frontiers.StackFrontier.ContainsState | maze.py:18-19 | true exactly when some pending node has the state |
| Frontiers.StackFrontier.Empty | maze.py:21-22 | true exactly when no node is pending |
| Frontiers.StackFrontier.Remove | maze.py:24-29 | fails on an empty frontier and changes nothing; otherwise returns the last node added and keeps the others in order |
| Frontiers.QueueFrontier.constructor | maze.py:12-13 | a new frontier is empty (inherited `__init__`) |
| Frontiers.QueueFrontier.Add | maze.py:15-16 | the node is appended at the end (inherited `add`) |
| Frontiers.QueueFrontier.ContainsState | maze.py:18-19 | true exactly when some pending node has the state (inherited `contains_state`) |
| Frontiers.QueueFrontier.Empty | maze.py:21-22 | true exactly when no node is pending (inherited `empty`) |
| Frontiers.QueueFrontier.Remove | maze.py:32-37 | fails on an empty frontier and changes nothing; otherwise returns the first node added and keeps the rest in order |
| Bfs.Classify | maze.py:82-87 | the goal test comes before the explored test; the result is the one removal of the cell that fits the goal and the explored set |
| Bfs.BfsStart | maze.py:76-78 | the queue holding only the start node, with nothing expanded, satisfies the breadth-first invariant |
| Bfs.CoveredAfterRemoval | maze.py:80 | removing the head and then expanding its cell at its path length keeps every covered cell covered |
| Bfs.BfsSkip | maze.py:85-86 | dropping a head whose cell was already expanded keeps the breadth-first invariant |
| Bfs.ExpandLengths | maze.py:88-90 | after an expansion every queued path is between the removed path and one move longer |
| Bfs.ExpandLayered | maze.py:88-90 | after an expansion the queue's path lengths are still non-decreasing and span at most one |
| Bfs.ExpandCovers | maze.py:87-90 | after an expansion each passable neighbour of an expanded cell is reached within one more move |
| Bfs.BfsExpand | maze.py:87-90 | expanding the head at its path length and appending its children keeps the breadth-first invariant |
| Bfs.ShortWalkExplored | maze.py:79-90 | every cell on a walk from an expanded cell that is shorter than the head's path was expanded, no deeper than its distance along the walk |
| Bfs.BfsShortest | maze.py:82-84 | when the head reaches a never-expanded target, no walk from the start to it is shorter than the head's path |
| Bfs.BfsExhausted | maze.py:79-80 | once the queue is empty, no walk from the start reaches a cell that was never expanded |
| Bfs.ChildrenAreWalks | maze.py:88-90 | if every queued path is a walk from the start to its node's cell, this still holds after removing the head and appending its children |
| Bfs.LogAppend | maze.py:80-87 | appending a fitting removal to a log that has not reached the goal keeps it fitting, and updates the expanded set and count by that removal |
| Bfs.LogFitsPrefix | maze.py:80-87 | every prefix of a fitting log fits |
| Bfs.ExpandedInMembers | maze.py:87 | a cell is in the log's expanded set exactly when some entry expanded it |
| Bfs.LogFitsAt | maze.py:80-87 | each entry fits the cells explored before it, and only the last entry can reach the goal |
| Bfs.ExpandedAtMostOnce | maze.py:85-87 | no cell is expanded twice, and none that was explored before the run |
| Bfs.CountIsCardinality | maze.py:85-87 | the number of expansions equals the number of cells expanded |
| Solver.OpenChildren | maze.py:88-90 | expanding the head keeps every queued node at an open cell |
| Solver.Run | maze.py:79-90 | the loop run to its end, on values: the explored set only grows and holds open cells, the goal is never explored, each removal is counted and logged, the start node is always removed, and `solution` changes only when the goal is reached |
| Solver.ReachedExpand | maze.py:87 | exploring the head keeps every newly explored cell reachable from the start |
| Solver.CountBound | maze.py:79-90 | removals are at most one plus four per newly explored cell, and the explored set is the old one plus the cells expanded |
| Solver.SearchStart | maze.py:76-78 | with only the start node queued and nothing explored since the search began, the whole loop invariant holds: accounting, walks, reachability and layering |
| Solver.SkipKeeps | maze.py:85-86 | a pass that drops an explored head keeps the loop invariant |
| Solver.ExpandKeeps | maze.py:87-90 | a pass that expands its head keeps the loop invariant, the new cell being reachable, and leaves one fewer open cell unexplored |
| Solver.DrainedFinishes | maze.py:79-80 | a drained queue ends the search by raising: the log fits and did not reach the goal, and on a fresh solver every reachable cell was explored and the goal is unreachable |
| Solver.GoalFinishes | maze.py:82-84 | a head at the goal ends the search normally: its path is a walk to the goal, and on a fresh solver a shortest one |
| Solver.RaggedFinishes | maze.py:87-88 | `neighbors` raising on the head ends the search with an index error, after exploring that reachable cell; the maze is not rectangular |
| Solver.RunFinishes | maze.py:79-90 | from any state that keeps the loop invariant, where `Run` ends is as `Finished` states: a fitting log, a solution that is a walk (shortest on a fresh solver), reachable explored cells, exhaustive exploration when the queue drains, an index error only on a ragged maze |
| Solver.RunContinues | maze.py:79-90 | a pass that goes on leaves the end of `Run` unchanged, and makes progress: fewer unexplored open cells, or as many and a shorter queue |
| Solver.RunStops | maze.py:79-90 | a pass that stops is the end of `Run`: its outcome and explored set, one more count and log entry unless the queue was empty, and the head's path as solution at the goal |
| Solver.EnqueueChildren | maze.py:88-90 | the frontier gains one node per neighbour, in order, each with the parent's path plus its action |
| Solver.MazeSolver.constructor | maze.py:40-44 | the markers are the scan's, nothing is explored, no solution, count zero |
| Solver.MazeSolver.Neighbors | maze.py:60-73 | the loop returns exactly what `Neighbors` states on values |
| Solver.MazeSolver.Pass | maze.py:79-90 | one pass removes and counts one node (none when the queue is empty) and then stops at the goal, drops an explored cell, or explores the cell and queues its neighbours; `solution` changes only when the goal is reached |
| Solver.MazeSolver.Search | maze.py:76-90 | the loop, from the queue holding only the start node, ends exactly as `Run` does: the outcome, `explored`, `num_explored`, `solution` and the log of removals |
| Solver.MazeSolver.Solve | maze.py:75-90 | with a start: the fields end exactly as `Run` leaves them, one count per removal, and as `Finished` states (a walk to the goal, shortest on a fresh solver; reachable explored cells; every reachable cell explored when the queue drains on a fresh solver; an index error only on a ragged maze). Without a start, the lone `(None, [])` node is counted and then either matches a missing goal (solution `[]`) or makes `neighbors` raise |
| Scenarios.CorridorBlocked | maze.py:71 | on `A█.B`, a fresh search explores only the start and raises "Frontier is empty": the wall cuts the goal off |
| Scenarios.WalkCoversDistance | maze.py:62-67 | each move changes one coordinate by one, so a walk is at least as long as the distance it covers |
| Scenarios.SquareTwoMoves | maze.py:82-84 | on `A.` over `.B`, a fresh search returns normally with a path of two moves |
| Scenarios.KeepFour | maze.py:69-73 | with no candidate ragged, the filter keeps the passable candidates in up, down, left, right order |
| Scenarios.ExpandStep | maze.py:87-90 | a pass that expands the head and queues its children leaves the end of `Run` unchanged |
| Scenarios.SkipStep | maze.py:85-86 | a pass that drops an explored head leaves the end of `Run` unchanged |
| Scenarios.NeighborsTopLeft | maze.py:60-73 | on the square, the start's neighbours are down and then right |
| Scenarios.NeighborsBottomLeft | maze.py:60-73 | on the square, the neighbours of (1, 0) are up and then right |
| Scenarios.NeighborsTopRight | maze.py:60-73 | on the square, the neighbours of (0, 1) are down and then left |
| Scenarios.SquarePass1 | maze.py:79-90 | on the square, the first pass expands the start and queues down, then right |
| Scenarios.SquarePass2 | maze.py:79-90 | on the square, the second pass expands (1, 0) and queues the start and the goal |
| Scenarios.SquarePass3 | maze.py:79-90 | on the square, the third pass expands (0, 1) and queues the goal and the start |
| Scenarios.SquarePass4And5 | maze.py:79-90 | on the square, the fourth pass drops the explored start and the fifth reaches the goal along `[Down, Right]` |
| Scenarios.SquareRun | maze.py:75-90 | on the square, the run removes five nodes, explores three cells and returns `[Down, Right]`, because down is tried before right |

## Left out

- Reading the maze file and `line.strip()` (maze.py:46-48) are file I/O. The constructor takes the grid of characters directly.
- `output_image` (maze.py:92-118) renders with PIL and is not part of this model.
- The command-line script (maze.py:120-133) prints and handles arguments, and is not part of this model.
- The `Node` class (maze.py:5-9) is never used by `solve`. The model's `Node` is the `(state, path)` pair that `solve` stores.
- `CustomQueueFrontier` inherits `__init__`, `add`, `contains_state` and `empty` from `CustomStackFrontier`. The model repeats those members in `QueueFrontier` instead of sharing them through a base type.
- `contains_state` reads `node.state`, but `solve` never calls it and stores tuples. The model's nodes have a `state` field.
- The stack frontier is modelled as a container only. `solve` always uses the queue, so there is no depth-first run to model.
- Exceptions are not raised. `remove` returns a failure value, and `Solve` reports which exception escapes (`Outcome`) while leaving the state as the source leaves it. Exception messages are not modelled.
- Solver.MazeSolver.Solve: on a maze with a 'B' but no 'A', the source adds `None` to `self.explored` before `neighbors(None)` raises. The model's explored set holds cells only, so it is left unchanged there. On a second `solve` of such a maze the stored `None` makes the source skip the node and raise "Frontier is empty" instead; the model reports `StartUnpackRaised` on every call.
- Solver.MazeSolver.Solve: the shortest-solution, every-reachable-cell-explored and unreachable-goal guarantees are stated only for a call that starts with an empty `explored` set. A second call on the same solver keeps the old explored cells, which can block the search. The equation with `Run` and the other facts of `Finished` hold for every call.
