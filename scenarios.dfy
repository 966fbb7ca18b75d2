/** Two small mazes worked through the model. In the first a wall cuts the
    goal off: `solve` explores the start alone and raises "Frontier is
    empty". In the second the goal is two moves away by two routes: the
    search, trying down before right, returns `[Down, Right]`. */
module Scenarios {
  import opened Results
  import opened MazeGrid
  import opened Frontiers
  import opened Bfs
  import opened Solver

  /** `A█.B`: one row, the wall between start and goal. */
  predicate IsCorridor(g: Grid)
  {
    g == [['A', '█', '.', 'B']]
  }

  /** `A.` over `.B`: start top left, goal bottom right. */
  predicate IsSquare(g: Grid)
  {
    g == [['A', '.'], ['.', 'B']]
  }

  // ---------------------------------------------------------------------------
  // What `Finished` alone decides
  // ---------------------------------------------------------------------------

  /** No move from the corridor's start is passable. */
  lemma CorridorClosed(g: Grid)
    requires IsCorridor(g)
    ensures forall c, a :: c in {(0, 0)} && Passable(g, Step(c, a)) ==> Step(c, a) in {(0, 0)}
  {
    forall c, a | c in {(0, 0)} && Passable(g, Step(c, a)) ensures Step(c, a) in {(0, 0)} {
      match a
      case Up =>
      case Down =>
      case Left =>
      case Right =>
    }
  }

  /** A fresh search of the corridor explores the start only and then finds
      the queue empty. */
  lemma CorridorBlocked(g: Grid, explored: set<Cell>, log: seq<Removal>, path: Option<seq<Action>>, outcome: Outcome)
    requires IsCorridor(g)
    requires Finished(g, (0, 0), Some((0, 3)), {}, explored, log, path, outcome)
    ensures outcome == FrontierEmptyRaised && explored == {(0, 0)}
  {
    CorridorClosed(g);
    forall c, w | Walk(g, (0, 0), w, c) ensures c == (0, 0) {
      ClosedSetHoldsWalks(g, {(0, 0)}, (0, 0), w, c);
    }
    assert Rectangular(g);
    assert Walk(g, (0, 0), [], (0, 0));
  }

  /** The number of moves between two cells, ignoring walls. */
  function Distance(c: Cell, d: Cell): nat
  {
    (if c.0 <= d.0 then d.0 - c.0 else c.0 - d.0) + (if c.1 <= d.1 then d.1 - c.1 else c.1 - d.1)
  }

  /** A walk is at least as long as the distance it covers. */
  lemma {:induction false} WalkCoversDistance(g: Grid, from: Cell, path: seq<Action>, to: Cell)
    requires Walk(g, from, path, to)
    ensures Distance(from, to) <= |path|
    decreases |path|
  {
    if path != [] {
      WalkCoversDistance(g, Step(from, path[0]), path[1..], to);
    }
  }

  /** A fresh search of the square returns normally with a two-move path. */
  lemma SquareTwoMoves(g: Grid, explored: set<Cell>, log: seq<Removal>, path: Option<seq<Action>>, outcome: Outcome)
    requires IsSquare(g)
    requires Finished(g, (0, 0), Some((1, 1)), {}, explored, log, path, outcome)
    ensures outcome == Solved && |path.value| == 2
  {
    assert Walk(g, (0, 1), [Down], (1, 1));
    assert Walk(g, (0, 0), [Right, Down], (1, 1));
    assert Rectangular(g);
    WalkCoversDistance(g, (0, 0), path.value, (1, 1));
  }

  // ---------------------------------------------------------------------------
  // The run on the square, pass by pass
  // ---------------------------------------------------------------------------

  /** The filter on four candidates none of which is ragged keeps, in order,
      the passable ones. */
  lemma KeepFour(g: Grid, u: Move, d: Move, l: Move, r: Move)
    requires !Ragged(g, u.cell) && !Ragged(g, d.cell) && !Ragged(g, l.cell) && !Ragged(g, r.cell)
    ensures KeepPassable(g, [u, d, l, r]) ==
              Success((if Passable(g, u.cell) then [u] else []) + (if Passable(g, d.cell) then [d] else []) +
                      (if Passable(g, l.cell) then [l] else []) + (if Passable(g, r.cell) then [r] else []))
  {
    KeepPassableSingle(g, u);
    KeepPassableSingle(g, d);
    KeepPassableSingle(g, l);
    KeepPassableSingle(g, r);
    KeepPassableAppend(g, [u], [d]);
    KeepPassableAppend(g, [u, d], [l]);
    KeepPassableAppend(g, [u, d, l], [r]);
    assert [u] + [d] == [u, d] && [u, d] + [l] == [u, d, l] && [u, d, l] + [r] == [u, d, l, r];
  }

  /** The children of two moves. */
  lemma ChildrenPair(path: seq<Action>, m: Move, n: Move)
    ensures Children(path, [m, n]) == [Node(m.cell, path + [m.action]), Node(n.cell, path + [n.action])]
  {
  }

  /** A pass that expands the head and queues its children leaves the end of
      the run unchanged. */
  lemma ExpandStep(g: Grid, goal: Option<Cell>, explored: set<Cell>, q: seq<Node>,
                   count: nat, solution: Option<seq<Action>>, log: seq<Removal>, ms: seq<Move>)
    requires explored <= OpenCells(g) && OpenQueue(g, q) && q != []
    requires Classify(goal, explored, q[0].state) == Expanded(q[0].state)
    requires Neighbors(g, q[0].state) == Success(ms)
    ensures explored + {q[0].state} <= OpenCells(g) && OpenQueue(g, q[1..] + Children(q[0].path, ms))
    ensures Run(g, goal, explored, q, count, solution, log) ==
              Run(g, goal, explored + {q[0].state}, q[1..] + Children(q[0].path, ms), count + 1, solution,
                  log + [Expanded(q[0].state)])
  {
    OpenChildren(g, q, ms);
  }

  /** A pass that drops an explored head leaves the end of the run unchanged. */
  lemma SkipStep(g: Grid, goal: Option<Cell>, explored: set<Cell>, q: seq<Node>,
                 count: nat, solution: Option<seq<Action>>, log: seq<Removal>)
    requires explored <= OpenCells(g) && OpenQueue(g, q) && q != []
    requires Classify(goal, explored, q[0].state) == Skipped(q[0].state)
    ensures OpenQueue(g, q[1..])
    ensures Run(g, goal, explored, q, count, solution, log) ==
              Run(g, goal, explored, q[1..], count + 1, solution, log + [Skipped(q[0].state)])
  {
  }

  /** `neighbors` on the square, from each cell the search expands. */
  lemma NeighborsTopLeft(g: Grid)
    requires IsSquare(g)
    ensures Neighbors(g, (0, 0)) == Success([Move(Down, (1, 0)), Move(Right, (0, 1))])
  {
    var u, d, l, r := Move(Up, (-1, 0)), Move(Down, (1, 0)), Move(Left, (0, -1)), Move(Right, (0, 1));
    assert Candidates((0, 0)) == [u, d, l, r];
    KeepFour(g, u, d, l, r);
    assert [] + [d] + [] + [r] == [d, r];
  }

  lemma NeighborsBottomLeft(g: Grid)
    requires IsSquare(g)
    ensures Neighbors(g, (1, 0)) == Success([Move(Up, (0, 0)), Move(Right, (1, 1))])
  {
    var u, d, l, r := Move(Up, (0, 0)), Move(Down, (2, 0)), Move(Left, (1, -1)), Move(Right, (1, 1));
    assert Candidates((1, 0)) == [u, d, l, r];
    KeepFour(g, u, d, l, r);
    assert [u] + [] + [] + [r] == [u, r];
  }

  lemma NeighborsTopRight(g: Grid)
    requires IsSquare(g)
    ensures Neighbors(g, (0, 1)) == Success([Move(Down, (1, 1)), Move(Left, (0, 0))])
  {
    var u, d, l, r := Move(Up, (-1, 1)), Move(Down, (1, 1)), Move(Left, (0, 0)), Move(Right, (0, 2));
    assert Candidates((0, 1)) == [u, d, l, r];
    KeepFour(g, u, d, l, r);
    assert [] + [d] + [l] + [] == [d, l];
  }

  /** The start is expanded: down, then right, are queued. */
  lemma SquarePass1(g: Grid)
    requires IsSquare(g)
    ensures OpenQueue(g, [Node((1, 0), [Down]), Node((0, 1), [Right])])
    ensures Run(g, Some((1, 1)), {}, [Node((0, 0), [])], 0, None, []) ==
              Run(g, Some((1, 1)), {(0, 0)}, [Node((1, 0), [Down]), Node((0, 1), [Right])], 1, None, [Expanded((0, 0))])
  {
    var q0 := [Node((0, 0), [])];
    assert OpenQueue(g, q0);
    NeighborsTopLeft(g);
    ExpandStep(g, Some((1, 1)), {}, q0, 0, None, [], [Move(Down, (1, 0)), Move(Right, (0, 1))]);
    ChildrenPair([], Move(Down, (1, 0)), Move(Right, (0, 1)));
    assert q0[1..] == [] && [] + [Down] == [Down] && [] + [Right] == [Right];
    assert {} + {(0, 0)} == {(0, 0)};
    assert [] + [Expanded((0, 0))] == [Expanded((0, 0))];
  }

  /** (1, 0) is expanded: up to the start, then right to the goal, are queued. */
  lemma SquarePass2(g: Grid)
    requires IsSquare(g)
    requires OpenQueue(g, [Node((1, 0), [Down]), Node((0, 1), [Right])])
    ensures OpenQueue(g, [Node((0, 1), [Right]), Node((0, 0), [Down, Up]), Node((1, 1), [Down, Right])])
    ensures Run(g, Some((1, 1)), {(0, 0)}, [Node((1, 0), [Down]), Node((0, 1), [Right])], 1, None, [Expanded((0, 0))]) ==
              Run(g, Some((1, 1)), {(0, 0), (1, 0)}, [Node((0, 1), [Right]), Node((0, 0), [Down, Up]), Node((1, 1), [Down, Right])],
                  2, None, [Expanded((0, 0)), Expanded((1, 0))])
  {
    var q1 := [Node((1, 0), [Down]), Node((0, 1), [Right])];
    NeighborsBottomLeft(g);
    ExpandStep(g, Some((1, 1)), {(0, 0)}, q1, 1, None, [Expanded((0, 0))], [Move(Up, (0, 0)), Move(Right, (1, 1))]);
    ChildrenPair([Down], Move(Up, (0, 0)), Move(Right, (1, 1)));
    assert q1[1..] == [Node((0, 1), [Right])] && [Down] + [Up] == [Down, Up] && [Down] + [Right] == [Down, Right];
    assert {(0, 0)} + {(1, 0)} == {(0, 0), (1, 0)};
    assert [Expanded((0, 0))] + [Expanded((1, 0))] == [Expanded((0, 0)), Expanded((1, 0))];
  }

  /** (0, 1) is expanded: down to the goal, then left to the start, are queued. */
  lemma SquarePass3(g: Grid)
    requires IsSquare(g)
    requires OpenQueue(g, [Node((0, 1), [Right]), Node((0, 0), [Down, Up]), Node((1, 1), [Down, Right])])
    ensures OpenQueue(g, [Node((0, 0), [Down, Up]), Node((1, 1), [Down, Right]), Node((1, 1), [Right, Down]), Node((0, 0), [Right, Left])])
    ensures Run(g, Some((1, 1)), {(0, 0), (1, 0)}, [Node((0, 1), [Right]), Node((0, 0), [Down, Up]), Node((1, 1), [Down, Right])],
                2, None, [Expanded((0, 0)), Expanded((1, 0))]) ==
              Run(g, Some((1, 1)), {(0, 0), (1, 0), (0, 1)},
                  [Node((0, 0), [Down, Up]), Node((1, 1), [Down, Right]), Node((1, 1), [Right, Down]), Node((0, 0), [Right, Left])],
                  3, None, [Expanded((0, 0)), Expanded((1, 0)), Expanded((0, 1))])
  {
    var q2 := [Node((0, 1), [Right]), Node((0, 0), [Down, Up]), Node((1, 1), [Down, Right])];
    NeighborsTopRight(g);
    ExpandStep(g, Some((1, 1)), {(0, 0), (1, 0)}, q2, 2, None, [Expanded((0, 0)), Expanded((1, 0))],
               [Move(Down, (1, 1)), Move(Left, (0, 0))]);
    ChildrenPair([Right], Move(Down, (1, 1)), Move(Left, (0, 0)));
    assert q2[1..] == [Node((0, 0), [Down, Up]), Node((1, 1), [Down, Right])];
    assert [Right] + [Down] == [Right, Down] && [Right] + [Left] == [Right, Left];
    assert {(0, 0), (1, 0)} + {(0, 1)} == {(0, 0), (1, 0), (0, 1)};
    assert [Expanded((0, 0)), Expanded((1, 0))] + [Expanded((0, 1))] == [Expanded((0, 0)), Expanded((1, 0)), Expanded((0, 1))];
  }

  /** The start, queued again, is dropped; then the goal is reached along
      the path that went down first. */
  lemma SquarePass4And5(g: Grid)
    requires IsSquare(g)
    requires OpenQueue(g, [Node((0, 0), [Down, Up]), Node((1, 1), [Down, Right]), Node((1, 1), [Right, Down]), Node((0, 0), [Right, Left])])
    ensures Run(g, Some((1, 1)), {(0, 0), (1, 0), (0, 1)},
                [Node((0, 0), [Down, Up]), Node((1, 1), [Down, Right]), Node((1, 1), [Right, Down]), Node((0, 0), [Right, Left])],
                3, None, [Expanded((0, 0)), Expanded((1, 0)), Expanded((0, 1))]) ==
              Ending(Solved, {(0, 0), (1, 0), (0, 1)}, 5, Some([Down, Right]),
                     [Expanded((0, 0)), Expanded((1, 0)), Expanded((0, 1)), Skipped((0, 0)), ReachedGoal((1, 1))])
  {
    var e3 := {(0, 0), (1, 0), (0, 1)};
    var q3 := [Node((0, 0), [Down, Up]), Node((1, 1), [Down, Right]), Node((1, 1), [Right, Down]), Node((0, 0), [Right, Left])];
    var l3 := [Expanded((0, 0)), Expanded((1, 0)), Expanded((0, 1))];
    SkipStep(g, Some((1, 1)), e3, q3, 3, None, l3);
    assert q3[1..][0] == Node((1, 1), [Down, Right]);
    assert l3 + [Skipped((0, 0))] + [ReachedGoal((1, 1))] ==
           [Expanded((0, 0)), Expanded((1, 0)), Expanded((0, 1)), Skipped((0, 0)), ReachedGoal((1, 1))];
  }

  /** The whole run on the square: five removals, three cells explored, and
      the solution `[Down, Right]`. */
  lemma SquareRun(g: Grid)
    requires IsSquare(g)
    ensures Run(g, Some((1, 1)), {}, [Node((0, 0), [])], 0, None, []) ==
              Ending(Solved, {(0, 0), (1, 0), (0, 1)}, 5, Some([Down, Right]),
                     [Expanded((0, 0)), Expanded((1, 0)), Expanded((0, 1)), Skipped((0, 0)), ReachedGoal((1, 1))])
  {
    SquarePass1(g);
    SquarePass2(g);
    SquarePass3(g);
    SquarePass4And5(g);
  }
}
