/** `MazeSolver`: the parsed maze, its start and goal, and the breadth-first
    `solve` loop with the fields it updates. */
module Solver {
  import opened Results
  import opened MazeGrid
  import opened Frontiers
  import opened Bfs

  /** How a call of `solve` ends. Only `Solved` is a normal return; the other
      three are the exceptions the Python code lets escape. */
  datatype Outcome =
    | Solved                // the goal was dequeued and `solution` set
    | FrontierEmptyRaised   // `remove` on the drained queue ("Frontier is empty")
    | StartUnpackRaised     // no 'A' in the maze: unpacking None in `neighbors`
    | IndexErrorRaised      // `neighbors` indexed past the end of a short row

  // ---------------------------------------------------------------------------
  // The `solve` loop run to its end, on values
  // ---------------------------------------------------------------------------

  /** How the `while` loop of `solve` stopped, the solver's fields it left,
      and the record of its removals. */
  datatype Ending = Ending(outcome: Outcome, explored: set<Cell>, numExplored: nat,
                           solution: Option<seq<Action>>, log: seq<Removal>)

  /** Every queued node is at an open cell of the grid. */
  predicate OpenQueue(g: Grid, q: seq<Node>)
  {
    forall i :: 0 <= i < |q| ==> Open(g, q[i].state)
  }

  /** Expanding the head keeps every queued node at an open cell. */
  lemma OpenChildren(g: Grid, q: seq<Node>, ms: seq<Move>)
    requires OpenQueue(g, q) && q != []
    requires Neighbors(g, q[0].state) == Success(ms)
    ensures OpenQueue(g, q[1..] + Children(q[0].path, ms))
  {
    var q' := q[1..] + Children(q[0].path, ms);
    forall i | 0 <= i < |q'| ensures Open(g, q'[i].state) {
      if i < |q| - 1 {
        assert q'[i] == q[i + 1];
      } else {
        assert q'[i].state == ms[i - (|q| - 1)].cell;
      }
    }
  }

  /** The `while` loop of `solve` from queue `q`, with `explored`, `count`
      (`num_explored`) and `solution` the solver's fields, run pass by pass
      until it breaks at the goal or an exception escapes; each removal is
      appended to `log`. */
  function Run(g: Grid, goal: Option<Cell>, explored: set<Cell>, q: seq<Node>,
               count: nat, solution: Option<seq<Action>>, log: seq<Removal>): (r: Ending)
    requires explored <= OpenCells(g) && OpenQueue(g, q)
    ensures explored <= r.explored <= OpenCells(g)
    ensures goal.Some? && goal.value !in explored ==> goal.value !in r.explored
    ensures r.numExplored + |log| == count + |r.log|
    ensures count + (if q == [] then 0 else 1) <= r.numExplored
    ensures r.outcome != StartUnpackRaised
    ensures r.outcome != Solved ==> r.solution == solution
    decreases |OpenCells(g) - explored|, |q|
  {
    if q == [] then Ending(FrontierEmptyRaised, explored, count, solution, log)
    else
      var x, path := q[0].state, q[0].path;
      var removal := Classify(goal, explored, x);
      match removal
      case ReachedGoal(_) => Ending(Solved, explored, count + 1, Some(path), log + [removal])
      case Skipped(_) => Run(g, goal, explored, q[1..], count + 1, solution, log + [removal])
      case Expanded(_) =>
        match Neighbors(g, x)
        case Failure(_) => Ending(IndexErrorRaised, explored + {x}, count + 1, solution, log + [removal])
        case Success(ms) =>
          FewerUnexplored(OpenCells(g), explored, x);
          OpenChildren(g, q, ms);
          Run(g, goal, explored + {x}, q[1..] + Children(path, ms), count + 1, solution, log + [removal])
  }

  // ---------------------------------------------------------------------------
  // The state of the `solve` loop, on values
  // ---------------------------------------------------------------------------

  /** What `solve` leaves behind, given the cells explored when it began:
      the log fits, exactly the expanded cells were added, and there were at
      most one plus four removals per newly explored cell. */
  ghost predicate Recorded(explored0: set<Cell>, goal: Option<Cell>, log: seq<Removal>, explored: set<Cell>)
  {
    LogFits(explored0, goal, log) &&
    explored == explored0 + ExpandedIn(log) &&
    |log| <= 1 + 4 * |explored - explored0|
  }

  // The invariant of the `solve` loop comes in three parts: the bookkeeping
  // of removals, the walks carried by the queued nodes, and the breadth-first
  // layering (kept on a fresh solver only).

  /** The bookkeeping: `explored` is what it was plus what the log expanded,
      the log fits and has not reached the goal, and the removals plus the
      `qlen` queued nodes make up the `added` nodes ever queued, at most one
      plus four per expansion. */
  ghost predicate Accounted(explored0: set<Cell>, goal: Option<Cell>, explored: set<Cell>,
                            log: seq<Removal>, qlen: nat, added: nat)
  {
    explored == explored0 + ExpandedIn(log) &&
    LogFits(explored0, goal, log) &&
    (log != [] ==> !log[|log| - 1].ReachedGoal?) &&
    |log| + qlen == added <= 1 + 4 * CountExpanded(log)
  }

  /** Every queued node's path is a walk from the start to its open cell. */
  ghost predicate QueueWalks(g: Grid, s: Cell, q: seq<Node>)
  {
    OpenQueue(g, q) &&
    forall i :: 0 <= i < |q| ==> Walk(g, s, q[i].path, q[i].state)
  }

  /** Every cell explored since the search began is reachable from the start. */
  ghost predicate Reached(g: Grid, s: Cell, explored0: set<Cell>, explored: set<Cell>)
  {
    forall c :: c in explored && c !in explored0 ==> exists w :: Walk(g, s, w, c)
  }

  /** On a fresh solver, `depth` records exactly the explored cells and the
      breadth-first invariant holds. */
  ghost predicate Layers(g: Grid, s: Cell, explored0: set<Cell>, explored: set<Cell>, q: seq<Node>, depth: map<Cell, nat>)
  {
    explored0 == {} ==> depth.Keys == explored && BfsInvariant(g, s, depth, q)
  }

  /** Removals are bounded by the cells a fitting log expanded. */
  lemma CountBound(explored0: set<Cell>, goal: Option<Cell>, log: seq<Removal>, added: nat)
    requires LogFits(explored0, goal, log)
    requires |log| <= added <= 1 + 4 * CountExpanded(log)
    ensures Recorded(explored0, goal, log, explored0 + ExpandedIn(log))
  {
    ExpandedAtMostOnce(explored0, goal, log);
    CountIsCardinality(explored0, goal, log);
    assert (explored0 + ExpandedIn(log)) - explored0 == ExpandedIn(log);
  }


  // Bookkeeping, one lemma per way a pass can go.

  lemma AccountDrained(explored0: set<Cell>, goal: Option<Cell>, explored: set<Cell>, log: seq<Removal>, added: nat)
    requires Accounted(explored0, goal, explored, log, 0, added)
    ensures Recorded(explored0, goal, log, explored)
  {
    CountBound(explored0, goal, log, added);
  }

  lemma AccountGoal(explored0: set<Cell>, goal: Option<Cell>, explored: set<Cell>, log: seq<Removal>,
                    qlen: nat, added: nat, x: Cell)
    requires Accounted(explored0, goal, explored, log, qlen, added)
    requires qlen > 0 && goal == Some(x)
    ensures Recorded(explored0, goal, log + [ReachedGoal(x)], explored)
  {
    LogAppend(explored0, goal, log, ReachedGoal(x));
    CountBound(explored0, goal, log + [ReachedGoal(x)], added);
  }

  lemma AccountSkip(explored0: set<Cell>, goal: Option<Cell>, explored: set<Cell>, log: seq<Removal>,
                    qlen: nat, added: nat, x: Cell)
    requires Accounted(explored0, goal, explored, log, qlen, added)
    requires qlen > 0 && goal != Some(x) && x in explored
    ensures Accounted(explored0, goal, explored, log + [Skipped(x)], qlen - 1, added)
  {
    LogAppend(explored0, goal, log, Skipped(x));
  }

  lemma AccountExpand(explored0: set<Cell>, goal: Option<Cell>, explored: set<Cell>, log: seq<Removal>,
                      qlen: nat, added: nat, x: Cell, n: nat)
    requires Accounted(explored0, goal, explored, log, qlen, added)
    requires qlen > 0 && goal != Some(x) && x !in explored && n <= 4
    ensures Accounted(explored0, goal, explored + {x}, log + [Expanded(x)], qlen - 1 + n, added + n)
  {
    LogAppend(explored0, goal, log, Expanded(x));
  }

  lemma AccountIndexError(explored0: set<Cell>, goal: Option<Cell>, explored: set<Cell>, log: seq<Removal>,
                          qlen: nat, added: nat, x: Cell)
    requires Accounted(explored0, goal, explored, log, qlen, added)
    requires qlen > 0 && goal != Some(x) && x !in explored
    ensures Recorded(explored0, goal, log + [Expanded(x)], explored + {x})
  {
    var log' := log + [Expanded(x)];
    LogAppend(explored0, goal, log, Expanded(x));
    assert explored + {x} == explored0 + ExpandedIn(log');
    assert |log'| <= added <= 1 + 4 * CountExpanded(log');
    CountBound(explored0, goal, log', added);
  }

  // The queued walks.

  lemma QueueExpand(g: Grid, s: Cell, q: seq<Node>, ms: seq<Move>)
    requires QueueWalks(g, s, q) && q != []
    requires Neighbors(g, q[0].state) == Success(ms)
    ensures QueueWalks(g, s, q[1..] + Children(q[0].path, ms))
  {
    ChildrenAreWalks(g, s, q, ms);
    OpenChildren(g, q, ms);
  }

  // The breadth-first layering.

  /** The queue ran dry on a fresh solver: every cell reachable from the
      start was explored. */
  lemma LayersDrained(g: Grid, s: Cell, explored0: set<Cell>, explored: set<Cell>, depth: map<Cell, nat>)
    requires Layers(g, s, explored0, explored, [], depth)
    requires explored0 == {}
    ensures forall c, w :: Walk(g, s, w, c) ==> c in explored
  {
    forall c, w | Walk(g, s, w, c) ensures c in explored {
      if c !in explored {
        BfsExhausted(g, s, depth, c, w);
      }
    }
  }

  /** The head of the queue is at the goal on a fresh solver: no walk to the
      goal is shorter than its path. */
  lemma LayersGoal(g: Grid, s: Cell, explored0: set<Cell>, explored: set<Cell>, q: seq<Node>, depth: map<Cell, nat>)
    requires Layers(g, s, explored0, explored, q, depth)
    requires explored0 == {} && q != [] && q[0].state !in explored
    ensures forall w :: Walk(g, s, w, q[0].state) ==> |q[0].path| <= |w|
  {
    forall w | Walk(g, s, w, q[0].state) ensures |q[0].path| <= |w| {
      BfsShortest(g, s, depth, q, q[0].state, w);
    }
  }

  lemma LayersSkip(g: Grid, s: Cell, explored0: set<Cell>, explored: set<Cell>, q: seq<Node>, depth: map<Cell, nat>)
    requires Layers(g, s, explored0, explored, q, depth)
    requires q != [] && q[0].state in explored
    ensures Layers(g, s, explored0, explored, q[1..], depth)
  {
    if explored0 == {} {
      BfsSkip(g, s, depth, q);
    }
  }

  lemma LayersExpand(g: Grid, s: Cell, explored0: set<Cell>, explored: set<Cell>, q: seq<Node>,
                     depth: map<Cell, nat>, ms: seq<Move>)
    requires Layers(g, s, explored0, explored, q, depth)
    requires q != [] && q[0].state !in explored
    requires Neighbors(g, q[0].state) == Success(ms)
    ensures Layers(g, s, explored0, explored + {q[0].state}, q[1..] + Children(q[0].path, ms),
                   if explored0 == {} then depth[q[0].state := |q[0].path|] else depth)
  {
    if explored0 == {} {
      BfsExpand(g, s, depth, q, ms);
    }
  }

  /** Exploring one more cell of `cells` leaves fewer of them unexplored. */
  lemma FewerUnexplored(cells: set<Cell>, explored: set<Cell>, x: Cell)
    requires x in cells && x !in explored
    ensures |cells - (explored + {x})| < |cells - explored|
  {
    assert cells - (explored + {x}) == (cells - explored) - {x};
  }

  /** Exploring the head keeps every newly explored cell reachable: the
      head's path is a walk to it. */
  lemma ReachedExpand(g: Grid, s: Cell, explored0: set<Cell>, explored: set<Cell>, q: seq<Node>)
    requires Reached(g, s, explored0, explored)
    requires QueueWalks(g, s, q) && q != []
    ensures Reached(g, s, explored0, explored + {q[0].state})
  {
    assert Walk(g, s, q[0].path, q[0].state);
  }

  /** The whole invariant of the `solve` loop, given the start `s`: every
      explored cell is open and none is the goal, plus the three parts above. */
  ghost predicate Searching(g: Grid, s: Cell, goal: Option<Cell>, explored0: set<Cell>, explored: set<Cell>,
                            log: seq<Removal>, q: seq<Node>, added: nat, depth: map<Cell, nat>)
  {
    explored <= OpenCells(g) && (goal.Some? ==> goal.value !in explored) &&
    Accounted(explored0, goal, explored, log, |q|, added) &&
    QueueWalks(g, s, q) && Reached(g, s, explored0, explored) &&
    Layers(g, s, explored0, explored, q, depth)
  }

  /** What one pass of the `solve` loop does, on values: from queue `q` and
      explored set `explored` to `q'` and `explored'`. An empty queue raises;
      otherwise the head is classified, and an expanded head either raises
      from `neighbors` or has its children appended. */
  ghost predicate Passed(g: Grid, goal: Option<Cell>, explored: set<Cell>, q: seq<Node>,
                         removal: Option<Removal>, stop: Option<Outcome>, explored': set<Cell>, q': seq<Node>)
  {
    if q == [] then
      removal == None && stop == Some(FrontierEmptyRaised) && explored' == explored && q' == []
    else
      removal == Some(Classify(goal, explored, q[0].state)) &&
      match removal.value
      case ReachedGoal(_) => stop == Some(Solved) && explored' == explored && q' == q[1..]
      case Skipped(_) => stop == None && explored' == explored && q' == q[1..]
      case Expanded(x) =>
        explored' == explored + {x} &&
        match Neighbors(g, x)
        case Failure(_) => stop == Some(IndexErrorRaised) && q' == q[1..]
        case Success(ms) => stop == None && q' == q[1..] + Children(q[0].path, ms)
  }

  /** How a search from `s` that stopped ended, `path` being the solution
      it set: the log fits and ends in the goal exactly when `solve` returns
      normally; the path is then a walk to the goal, and on a fresh solver a
      shortest one; every newly explored cell is reachable from `s`, and a
      drained queue on a fresh solver means every reachable cell was
      explored, so no walk reaches the goal; `neighbors` raises only on a
      ragged maze. */
  ghost predicate Finished(g: Grid, s: Cell, goal: Option<Cell>, explored0: set<Cell>, explored: set<Cell>,
                           log: seq<Removal>, path: Option<seq<Action>>, outcome: Outcome)
  {
    outcome != StartUnpackRaised &&
    Recorded(explored0, goal, log, explored) &&
    (outcome == Solved <==> log != [] && log[|log| - 1].ReachedGoal?) &&
    (outcome == IndexErrorRaised ==> !Rectangular(g)) &&
    (outcome == Solved ==>
       goal.Some? && path.Some? && Walk(g, s, path.value, goal.value) &&
       (explored0 == {} ==> forall w :: Walk(g, s, w, goal.value) ==> |path.value| <= |w|)) &&
    Reached(g, s, explored0, explored) &&
    (outcome == FrontierEmptyRaised && explored0 == {} ==> forall c, w :: Walk(g, s, w, c) ==> c in explored) &&
    (outcome == FrontierEmptyRaised && explored0 == {} && goal.Some? ==> forall w :: !Walk(g, s, w, goal.value))
  }

  /** The loop's first pass: only the start node is queued, and nothing has
      been explored since the search began. */
  lemma SearchStart(g: Grid, s: Cell, goal: Option<Cell>, explored0: set<Cell>)
    requires Open(g, s)
    requires explored0 <= OpenCells(g) && (goal.Some? ==> goal.value !in explored0)
    ensures Searching(g, s, goal, explored0, explored0, [], [Node(s, [])], 1, map[])
  {
    BfsStart(g, s);
    assert [Node(s, [])][0] == Node(s, []);
  }

  /** A pass that drops an explored head keeps the invariant. */
  lemma SkipKeeps(g: Grid, s: Cell, goal: Option<Cell>, explored0: set<Cell>, explored: set<Cell>,
                  log: seq<Removal>, q: seq<Node>, added: nat, depth: map<Cell, nat>)
    requires Searching(g, s, goal, explored0, explored, log, q, added, depth)
    requires q != [] && Classify(goal, explored, q[0].state) == Skipped(q[0].state)
    ensures Searching(g, s, goal, explored0, explored, log + [Skipped(q[0].state)], q[1..], added, depth)
  {
    AccountSkip(explored0, goal, explored, log, |q|, added, q[0].state);
    LayersSkip(g, s, explored0, explored, q, depth);
  }

  /** A pass that expands its head and queues its children keeps the
      invariant, with one more explored open cell. */
  lemma ExpandKeeps(g: Grid, s: Cell, goal: Option<Cell>, explored0: set<Cell>, explored: set<Cell>,
                    log: seq<Removal>, q: seq<Node>, added: nat, depth: map<Cell, nat>, ms: seq<Move>)
    requires Searching(g, s, goal, explored0, explored, log, q, added, depth)
    requires q != [] && Classify(goal, explored, q[0].state) == Expanded(q[0].state)
    requires Neighbors(g, q[0].state) == Success(ms)
    ensures Searching(g, s, goal, explored0, explored + {q[0].state}, log + [Expanded(q[0].state)],
                      q[1..] + Children(q[0].path, ms), added + |ms|,
                      if explored0 == {} then depth[q[0].state := |q[0].path|] else depth)
    ensures |OpenCells(g) - (explored + {q[0].state})| < |OpenCells(g) - explored|
  {
    FewerUnexplored(OpenCells(g), explored, q[0].state);
    ReachedExpand(g, s, explored0, explored, q);
    AccountExpand(explored0, goal, explored, log, |q|, added, q[0].state, |ms|);
    QueueExpand(g, s, q, ms);
    LayersExpand(g, s, explored0, explored, q, depth, ms);
  }

  /** The queue was empty: the search finished with `remove` raising. */
  lemma DrainedFinishes(g: Grid, s: Cell, goal: Option<Cell>, explored0: set<Cell>, explored: set<Cell>,
                        log: seq<Removal>, added: nat, depth: map<Cell, nat>, path: Option<seq<Action>>)
    requires Searching(g, s, goal, explored0, explored, log, [], added, depth)
    ensures Finished(g, s, goal, explored0, explored, log, path, FrontierEmptyRaised)
  {
    AccountDrained(explored0, goal, explored, log, added);
    if explored0 == {} {
      LayersDrained(g, s, explored0, explored, depth);
    }
  }

  /** The head was at the goal: the search finished normally. */
  lemma GoalFinishes(g: Grid, s: Cell, goal: Option<Cell>, explored0: set<Cell>, explored: set<Cell>,
                     log: seq<Removal>, q: seq<Node>, added: nat, depth: map<Cell, nat>)
    requires Searching(g, s, goal, explored0, explored, log, q, added, depth)
    requires q != [] && goal == Some(q[0].state)
    ensures Finished(g, s, goal, explored0, explored, log + [ReachedGoal(q[0].state)], Some(q[0].path), Solved)
  {
    AccountGoal(explored0, goal, explored, log, |q|, added, q[0].state);
    if explored0 == {} {
      LayersGoal(g, s, explored0, explored, q, depth);
    }
  }

  /** `neighbors` raised on the head: the search finished with an error, and
      the maze was ragged. */
  lemma RaggedFinishes(g: Grid, s: Cell, goal: Option<Cell>, explored0: set<Cell>, explored: set<Cell>,
                       log: seq<Removal>, q: seq<Node>, added: nat, depth: map<Cell, nat>, path: Option<seq<Action>>)
    requires Searching(g, s, goal, explored0, explored, log, q, added, depth)
    requires q != [] && Classify(goal, explored, q[0].state) == Expanded(q[0].state)
    requires Neighbors(g, q[0].state).Failure?
    ensures Finished(g, s, goal, explored0, explored + {q[0].state}, log + [Expanded(q[0].state)], path, IndexErrorRaised)
  {
    AccountIndexError(explored0, goal, explored, log, |q|, added, q[0].state);
    ReachedExpand(g, s, explored0, explored, q);
    RectangularNeighbors(g, q[0].state);
  }

  /** Breadth-first search on values: from any state that keeps the loop
      invariant, the run ends in `e`, and `e` is as `Finished` states: its
      explored set, solution and log. */
  lemma {:induction false} RunFinishes(g: Grid, s: Cell, goal: Option<Cell>, explored0: set<Cell>, explored: set<Cell>,
                                       log: seq<Removal>, q: seq<Node>, added: nat, depth: map<Cell, nat>,
                                       count: nat, solution: Option<seq<Action>>, e: Ending)
    requires Searching(g, s, goal, explored0, explored, log, q, added, depth)
    requires Leads(g, goal, explored, q, count, solution, log, e)
    ensures Finished(g, s, goal, explored0, e.explored, e.log, e.solution, e.outcome)
    decreases |OpenCells(g) - explored|, |q|
  {
    if q == [] {
      RunStops(g, goal, explored, q, count, solution, log, e, None, FrontierEmptyRaised, explored, []);
      DrainedFinishes(g, s, goal, explored0, explored, log, added, depth, solution);
    } else {
      var x := q[0].state;
      var removal := Classify(goal, explored, x);
      match removal
      case ReachedGoal(_) =>
        RunStops(g, goal, explored, q, count, solution, log, e, Some(removal), Solved, explored, q[1..]);
        GoalFinishes(g, s, goal, explored0, explored, log, q, added, depth);
      case Skipped(_) =>
        RunContinues(g, goal, explored, q, count, solution, log, e, Some(removal), explored, q[1..]);
        SkipKeeps(g, s, goal, explored0, explored, log, q, added, depth);
        RunFinishes(g, s, goal, explored0, explored, log + [removal], q[1..], added, depth, count + 1, solution, e);
      case Expanded(_) =>
        match Neighbors(g, x)
        case Failure(_) =>
          RunStops(g, goal, explored, q, count, solution, log, e, Some(removal), IndexErrorRaised, explored + {x}, q[1..]);
          RaggedFinishes(g, s, goal, explored0, explored, log, q, added, depth, solution);
        case Success(ms) =>
          var q' := q[1..] + Children(q[0].path, ms);
          RunContinues(g, goal, explored, q, count, solution, log, e, Some(removal), explored + {x}, q');
          ExpandKeeps(g, s, goal, explored0, explored, log, q, added, depth, ms);
          RunFinishes(g, s, goal, explored0, explored + {x}, log + [removal], q',
                      added + |ms|, if explored0 == {} then depth[x := |q[0].path|] else depth, count + 1, solution, e);
    }
  }

  /** The loop run from queue `q`, fields `explored`, `count` and `solution`,
      and log `log` ends in `e`. */
  ghost predicate Leads(g: Grid, goal: Option<Cell>, explored: set<Cell>, q: seq<Node>,
                        count: nat, solution: Option<seq<Action>>, log: seq<Removal>, e: Ending)
  {
    explored <= OpenCells(g) && OpenQueue(g, q) && Run(g, goal, explored, q, count, solution, log) == e
  }

  /** A pass that goes on leaves the end of the run where it was, and makes
      progress: fewer open cells left unexplored, or as many and a shorter
      queue. */
  lemma RunContinues(g: Grid, goal: Option<Cell>, explored: set<Cell>, q: seq<Node>,
                     count: nat, solution: Option<seq<Action>>, log: seq<Removal>, e: Ending,
                     removal: Option<Removal>, explored': set<Cell>, q': seq<Node>)
    requires Leads(g, goal, explored, q, count, solution, log, e)
    requires Passed(g, goal, explored, q, removal, None, explored', q')
    ensures removal.Some?
    ensures Leads(g, goal, explored', q', count + 1, solution, log + [removal.value], e)
    ensures |OpenCells(g) - explored'| < |OpenCells(g) - explored| || (explored' == explored && |q'| < |q|)
  {
    if removal.value.Expanded? {
      FewerUnexplored(OpenCells(g), explored, q[0].state);
      OpenChildren(g, q, Neighbors(g, q[0].state).value);
    }
  }

  /** A pass that stops is the end of the run: its outcome, the explored set
      it leaves, one more count and log entry unless the queue was empty,
      and the head's path as the solution when it reached the goal. */
  lemma RunStops(g: Grid, goal: Option<Cell>, explored: set<Cell>, q: seq<Node>,
                 count: nat, solution: Option<seq<Action>>, log: seq<Removal>, e: Ending,
                 removal: Option<Removal>, outcome: Outcome, explored': set<Cell>, q': seq<Node>)
    requires Leads(g, goal, explored, q, count, solution, log, e)
    requires Passed(g, goal, explored, q, removal, Some(outcome), explored', q')
    ensures removal.Some? <==> q != []
    ensures e == Ending(outcome, explored', count + (if q == [] then 0 else 1),
                        if outcome == Solved && q != [] then Some(q[0].path) else solution,
                        if removal.Some? then log + [removal.value] else log)
  {
  }

  /** The inner loop of `solve`: one node per neighbour, in order, each with
      the parent's path plus the move. */
  method EnqueueChildren(frontier: QueueFrontier, path: seq<Action>, ms: seq<Move>)
    modifies frontier
    ensures frontier.nodes == old(frontier.nodes) + Children(path, ms)
  {
    for k := 0 to |ms|
      invariant frontier.nodes == old(frontier.nodes) + Children(path, ms[..k])
    {
      frontier.Add(Node(ms[k].cell, path + [ms[k].action]));
      assert Children(path, ms[..k + 1]) == Children(path, ms[..k]) + [Node(ms[k].cell, path + [ms[k].action])];
    }
    assert ms[..|ms|] == ms;
  }

  class MazeSolver {
    const maze: Grid
    const start: Option<Cell>
    const goal: Option<Cell>
    var solution: Option<seq<Action>>
    var explored: set<Cell>
    var numExplored: nat

    ghost predicate Valid()
      reads this
    {
      IsLastMarker(maze, StartMark, start) && IsLastMarker(maze, GoalMark, goal) &&
      explored <= OpenCells(maze) &&
      (goal.Some? ==> goal.value !in explored)
    }

    /** `__init__` once the file is read: scan for the markers, nothing
        explored yet. */
    constructor (grid: Grid)
      ensures Valid()
      ensures maze == grid && solution == None && explored == {} && numExplored == 0
    {
      maze := grid;
      var a, b := FindMarkers(grid);
      start, goal := a, b;
      solution := None;
      explored := {};
      numExplored := 0;
    }

    /** `neighbors`: try the four candidates in order and collect, with its
        action, each one inside the bounds test that is not a wall; looking
        up a candidate that passes the bounds test but lies past the end of
        its own row raises an index error. */
    method Neighbors(state: Cell) returns (r: Result<seq<Move>, IndexError>)
      ensures r == MazeGrid.Neighbors(maze, state)
    {
      var candidates := Candidates(state);
      var result: seq<Move> := [];
      for k := 0 to |candidates|
        invariant KeepPassable(maze, candidates[..k]) == Success(result)
      {
        var m := candidates[k];
        assert candidates[..k + 1] == candidates[..k] + [m];
        KeepPassableSingle(maze, m);
        assert result + [] == result;
        KeepPassableAppend(maze, candidates[..k], [m]);
        var (row, col) := m.cell;
        if 0 <= row < |maze| && 0 <= col < |maze[0]| {
          if col >= |maze[row]| {
            assert candidates == candidates[..k + 1] + candidates[k + 1..];
            KeepPassableAppend(maze, candidates[..k + 1], candidates[k + 1..]);
            return Failure(IndexError(m.cell));
          }
          if maze[row][col] != Wall {
            result := result + [m];
          }
        }
      }
      assert candidates[..|candidates|] == candidates;
      return Success(result);
    }

    /** One pass of the `while` body of `solve`: remove a node and count it;
        stop at the goal; drop an explored cell; otherwise explore the cell
        and queue its neighbours. `stop` is None when the loop goes on;
        `removal` is None when the queue was already empty. */
    method Pass(frontier: QueueFrontier) returns (stop: Option<Outcome>, ghost removal: Option<Removal>)
      modifies this, frontier
      ensures Passed(maze, goal, old(explored), old(frontier.nodes), removal, stop, explored, frontier.nodes)
      ensures numExplored == old(numExplored) + (if removal.None? then 0 else 1)
      ensures stop == Some(Solved) ==> solution == Some(old(frontier.nodes)[0].path)
      ensures stop != Some(Solved) ==> solution == old(solution)
    {
      var r := frontier.Remove();
      if r.Failure? {
        return Some(FrontierEmptyRaised), None;
      }
      var node := r.value;
      numExplored := numExplored + 1;
      if Some(node.state) == goal {
        solution := Some(node.path);
        return Some(Solved), Some(ReachedGoal(node.state));
      }
      if node.state in explored {
        return None, Some(Skipped(node.state));
      }
      explored := explored + {node.state};
      var nb := Neighbors(node.state);
      if nb.Failure? {
        return Some(IndexErrorRaised), Some(Expanded(node.state));
      }
      EnqueueChildren(frontier, node.path, nb.value);
      return None, Some(Expanded(node.state));
    }

    /** The `while` loop of `solve` for start `s`, from the queue holding only
        the start node: the fields end as `Run` leaves them, and `log` is the
        record of its removals. */
    method Search(s: Cell) returns (outcome: Outcome, ghost log: seq<Removal>)
      requires Open(maze, s)
      requires explored <= OpenCells(maze)
      modifies this
      ensures Run(maze, goal, old(explored), [Node(s, [])], old(numExplored), old(solution), []) ==
                Ending(outcome, explored, numExplored, solution, log)
    {
      var frontier := new QueueFrontier();
      frontier.Add(Node(s, []));
      assert frontier.nodes == [Node(s, [])];
      log := [];
      ghost var final := Run(maze, goal, explored, [Node(s, [])], numExplored, solution, []);
      while true
        invariant fresh(frontier)
        invariant Leads(maze, goal, explored, frontier.nodes, numExplored, solution, log, final)
        decreases |OpenCells(maze) - explored|, |frontier.nodes|
      {
        ghost var q, explored1, count1, solution1 := frontier.nodes, explored, numExplored, solution;
        var stop;
        ghost var removal;
        stop, removal := Pass(frontier);
        if stop.Some? {
          RunStops(maze, goal, explored1, q, count1, solution1, log, final, removal, stop.value, explored, frontier.nodes);
          if removal.Some? {
            log := log + [removal.value];
          }
          outcome := stop.value;
          return;
        }
        RunContinues(maze, goal, explored1, q, count1, solution1, log, final, removal, explored, frontier.nodes);
        log := log + [removal.value];
      }
    }

    /** `solve`. `log` records, removal by removal, whether the node reached
        the goal, was dropped as already explored, or was expanded. */
    method Solve() returns (outcome: Outcome, ghost log: seq<Removal>)
      requires Valid()
      modifies this
      ensures Valid()
      ensures old(explored) <= explored
      ensures outcome != Solved ==> solution == old(solution)
      // no start: the one node (None, []) is removed and counted
      ensures start.None? ==> log == [] && numExplored == old(numExplored) + 1 && explored == old(explored)
      ensures start.None? ==> if goal.None? then outcome == Solved && solution == Some([])
                              else outcome == StartUnpackRaised
      // a start: one count per removal, and the search finished as `Finished` states
      ensures start.Some? ==> numExplored == old(numExplored) + |log|
      ensures start.Some? ==> Finished(maze, start.value, goal, old(explored), explored, log, solution, outcome)
      // the fields end exactly as the loop run on values leaves them
      ensures start.Some? ==> Run(maze, goal, old(explored), [Node(start.value, [])], old(numExplored), old(solution), []) ==
                                Ending(outcome, explored, numExplored, solution, log)
    {
      if start.None? {
        log := [];
        numExplored := numExplored + 1;
        if goal.None? {
          solution := Some([]);
          outcome := Solved;
        } else {
          outcome := StartUnpackRaised;
        }
        return;
      }
      StartIsOpen(maze, start.value);
      SearchStart(maze, start.value, goal, explored);
      RunFinishes(maze, start.value, goal, explored, explored, [], [Node(start.value, [])], 1, map[], numExplored, solution,
                  Run(maze, goal, explored, [Node(start.value, [])], numExplored, solution, []));
      outcome, log := Search(start.value);
    }
  }
}
