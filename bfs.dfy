/** The breadth-first search that `MazeSolver.solve` runs, stated on values:
    the invariant that its queue, its explored set and the depths at which
    cells were expanded keep, and the record of what each removal did. */
module Bfs {
  import opened Results
  import opened MazeGrid
  import opened Frontiers

  /** The nodes `solve` enqueues for one expanded node: one per neighbour, in
      the neighbour order, each carrying the parent's path plus the move. */
  function Children(path: seq<Action>, ms: seq<Move>): seq<Node>
  {
    seq(|ms|, k requires 0 <= k < |ms| => Node(ms[k].cell, path + [ms[k].action]))
  }

  // ---------------------------------------------------------------------------
  // The layering invariant. `depth` maps each expanded cell to the length of
  // the path it was expanded with; `q` is the queue's contents.
  // ---------------------------------------------------------------------------

  /** Cell `y` is reached within `n` moves: it was expanded at depth at most
      `n`, or a node for it with a path of at most `n` moves is queued. */
  ghost predicate Covered(depth: map<Cell, nat>, q: seq<Node>, y: Cell, n: nat)
  {
    (y in depth && depth[y] <= n) ||
    exists i :: 0 <= i < |q| && q[i].state == y && |q[i].path| <= n
  }

  /** Path lengths along the queue never decrease and span at most one. */
  ghost predicate Layered(q: seq<Node>)
  {
    (forall i, j :: 0 <= i < j < |q| ==> |q[i].path| <= |q[j].path|) &&
    (forall i :: 0 <= i < |q| ==> |q[i].path| <= |q[0].path| + 1)
  }

  ghost predicate BfsInvariant(g: Grid, start: Cell, depth: map<Cell, nat>, q: seq<Node>)
  {
    Layered(q) &&
    (forall e, i :: e in depth && 0 <= i < |q| ==> depth[e] <= |q[i].path|) &&
    (forall e, a :: e in depth && Passable(g, Step(e, a)) ==> Covered(depth, q, Step(e, a), depth[e] + 1)) &&
    Covered(depth, q, start, 0)
  }

  /** The queue `solve` starts with, only the start node, and nothing explored. */
  lemma BfsStart(g: Grid, start: Cell)
    ensures BfsInvariant(g, start, map[], [Node(start, [])])
  {
    assert [Node(start, [])][0].state == start;
  }

  /** Taking the head off the queue and appending `c` keeps every cell that
      was covered covered, provided the head's cell is then expanded at a
      depth no greater than the head's path length. */
  lemma CoveredAfterRemoval(depth: map<Cell, nat>, q: seq<Node>, depth': map<Cell, nat>, c: seq<Node>, y: Cell, n: nat)
    requires q != []
    requires q[0].state in depth' && depth'[q[0].state] <= |q[0].path|
    requires forall e :: e in depth ==> e in depth' && depth'[e] == depth[e]
    requires Covered(depth, q, y, n)
    ensures Covered(depth', q[1..] + c, y, n)
  {
    if !(y in depth && depth[y] <= n) {
      var i :| 0 <= i < |q| && q[i].state == y && |q[i].path| <= n;
      if i > 0 {
        assert (q[1..] + c)[i - 1] == q[i];
      }
    }
  }

  /** A removed node whose cell was already expanded is dropped: the
      invariant holds of the rest of the queue. */
  lemma BfsSkip(g: Grid, start: Cell, depth: map<Cell, nat>, q: seq<Node>)
    requires BfsInvariant(g, start, depth, q)
    requires q != [] && q[0].state in depth
    ensures BfsInvariant(g, start, depth, q[1..])
  {
    var q' := q[1..];
    assert q' == q[1..] + [];
    forall e, a | e in depth && Passable(g, Step(e, a))
      ensures Covered(depth, q', Step(e, a), depth[e] + 1)
    {
      CoveredAfterRemoval(depth, q, depth, [], Step(e, a), depth[e] + 1);
    }
    CoveredAfterRemoval(depth, q, depth, [], start, 0);
  }

  /** The queue after an expansion: the rest of the old queue, then the
      children, all one move longer than the removed node. Its path lengths
      lie between the removed node's and one more. */
  lemma ExpandLengths(q: seq<Node>, ms: seq<Move>)
    requires Layered(q) && q != []
    ensures var q' := q[1..] + Children(q[0].path, ms);
            forall i :: 0 <= i < |q'| ==> |q[0].path| <= |q'[i].path| <= |q[0].path| + 1
  {
    var c := Children(q[0].path, ms);
    var q' := q[1..] + c;
    forall i | 0 <= i < |q'| ensures |q[0].path| <= |q'[i].path| <= |q[0].path| + 1 {
      if i < |q| - 1 {
        assert q'[i] == q[i + 1];
      } else {
        assert q'[i] == c[i - (|q| - 1)];
      }
    }
  }

  lemma ExpandLayered(q: seq<Node>, ms: seq<Move>)
    requires Layered(q) && q != []
    ensures Layered(q[1..] + Children(q[0].path, ms))
  {
    var c := Children(q[0].path, ms);
    var q' := q[1..] + c;
    ExpandLengths(q, ms);
    forall i, j | 0 <= i < j < |q'| ensures |q'[i].path| <= |q'[j].path| {
      if j < |q| - 1 {
        assert q'[i] == q[i + 1] && q'[j] == q[j + 1];
      } else {
        assert q'[j] == c[j - (|q| - 1)];
      }
    }
  }

  /** After an expansion, every passable neighbour of an expanded cell is
      still covered one move further: the expanded head's own neighbours by
      its children, the others as before. */
  lemma ExpandCovers(g: Grid, start: Cell, depth: map<Cell, nat>, q: seq<Node>, ms: seq<Move>, e: Cell, a: Action)
    requires BfsInvariant(g, start, depth, q)
    requires q != [] && q[0].state !in depth
    requires Neighbors(g, q[0].state) == Success(ms)
    requires e in depth[q[0].state := |q[0].path|] && Passable(g, Step(e, a))
    ensures var depth' := depth[q[0].state := |q[0].path|];
            Covered(depth', q[1..] + Children(q[0].path, ms), Step(e, a), depth'[e] + 1)
  {
    var x, p := q[0].state, q[0].path;
    var depth' := depth[x := |p|];
    var c := Children(p, ms);
    if e == x {
      var k :| 0 <= k < |ms| && ms[k] == Move(a, Step(x, a));
      assert (q[1..] + c)[|q| - 1 + k] == c[k];
    } else {
      CoveredAfterRemoval(depth, q, depth', c, Step(e, a), depth[e] + 1);
    }
  }

  /** A removed node whose cell was not yet expanded is expanded at its path
      length and its children are appended: the invariant holds again. */
  lemma BfsExpand(g: Grid, start: Cell, depth: map<Cell, nat>, q: seq<Node>, ms: seq<Move>)
    requires BfsInvariant(g, start, depth, q)
    requires q != [] && q[0].state !in depth
    requires Neighbors(g, q[0].state) == Success(ms)
    ensures BfsInvariant(g, start, depth[q[0].state := |q[0].path|], q[1..] + Children(q[0].path, ms))
  {
    var x, p := q[0].state, q[0].path;
    var depth' := depth[x := |p|];
    var c := Children(p, ms);
    var q' := q[1..] + c;
    ExpandLengths(q, ms);
    ExpandLayered(q, ms);
    assert forall e :: e in depth ==> depth[e] <= |p|;
    forall e, a | e in depth' && Passable(g, Step(e, a))
      ensures Covered(depth', q', Step(e, a), depth'[e] + 1)
    {
      ExpandCovers(g, start, depth, q, ms, e, a);
    }
    CoveredAfterRemoval(depth, q, depth', c, start, 0);
  }

  /** Every cell on a walk that starts at an expanded cell and stays shorter
      than the queue's head path was itself expanded, at a depth no greater
      than its distance along the walk. */
  lemma {:induction false} ShortWalkExplored(g: Grid, start: Cell, depth: map<Cell, nat>, q: seq<Node>,
                                             c: Cell, w: seq<Action>, t: Cell, d: nat)
    requires BfsInvariant(g, start, depth, q) && q != []
    requires c in depth && depth[c] <= d && d + |w| < |q[0].path|
    requires Walk(g, c, w, t)
    ensures t in depth && depth[t] <= d + |w|
    decreases |w|
  {
    if w != [] {
      var y := Step(c, w[0]);
      assert forall i :: 0 <= i < |q| ==> |q[0].path| <= |q[i].path|;
      assert Covered(depth, q, y, depth[c] + 1);
      assert y in depth && depth[y] <= d + 1;
      ShortWalkExplored(g, start, depth, q, y, w[1..], t, d + 1);
    }
  }

  /** Breadth-first order: when the head of the queue reaches target `t`,
      which was never expanded, no walk from the start to `t` is shorter than
      the head's path. */
  lemma BfsShortest(g: Grid, start: Cell, depth: map<Cell, nat>, q: seq<Node>, t: Cell, w: seq<Action>)
    requires BfsInvariant(g, start, depth, q)
    requires q != [] && q[0].state == t && t !in depth
    requires Walk(g, start, w, t)
    ensures |q[0].path| <= |w|
  {
    if |w| < |q[0].path| {
      assert forall i :: 0 <= i < |q| ==> |q[0].path| <= |q[i].path|;
      assert start in depth && depth[start] <= 0;
      ShortWalkExplored(g, start, depth, q, start, w, t, 0);
      assert false;
    }
  }

  /** Once the queue is empty, every cell reachable from the start was
      expanded: no walk reaches a cell that never was. */
  lemma BfsExhausted(g: Grid, start: Cell, depth: map<Cell, nat>, t: Cell, w: seq<Action>)
    requires BfsInvariant(g, start, depth, [])
    requires t !in depth
    ensures !Walk(g, start, w, t)
  {
    if Walk(g, start, w, t) {
      ClosedSetHoldsWalks(g, depth.Keys, start, w, t);
    }
  }

  /** Every queued node's path is a walk from the start to its cell; this
      survives removing the head and appending its children. */
  lemma ChildrenAreWalks(g: Grid, start: Cell, q: seq<Node>, ms: seq<Move>)
    requires q != [] && forall i :: 0 <= i < |q| ==> Walk(g, start, q[i].path, q[i].state)
    requires Neighbors(g, q[0].state) == Success(ms)
    ensures forall i :: 0 <= i < |q| - 1 + |ms| ==>
              var q' := q[1..] + Children(q[0].path, ms); Walk(g, start, q'[i].path, q'[i].state)
  {
    var q' := q[1..] + Children(q[0].path, ms);
    forall i | 0 <= i < |q'| ensures Walk(g, start, q'[i].path, q'[i].state) {
      if i < |q| - 1 {
        assert q'[i] == q[i + 1];
      } else {
        var k := i - (|q| - 1);
        assert q'[i] == Node(ms[k].cell, q[0].path + [ms[k].action]);
        WalkAppend(g, start, q[0].path, q[0].state, ms[k].action);
      }
    }
  }

  // ---------------------------------------------------------------------------
  // The record of removals. Each pass of the loop removes one node and does
  // one of three things with it.
  // ---------------------------------------------------------------------------

  datatype Removal =
    | ReachedGoal(state: Cell)   // the node is at the goal: the loop stops
    | Skipped(state: Cell)       // the cell was already explored: dropped
    | Expanded(state: Cell)      // newly explored: its neighbours are queued

  /** The cells expanded in `log`. */
  function ExpandedIn(log: seq<Removal>): set<Cell>
    decreases |log|
  {
    if log == [] then {}
    else ExpandedIn(log[..|log| - 1]) + (if log[|log| - 1].Expanded? then {log[|log| - 1].state} else {})
  }

  function CountExpanded(log: seq<Removal>): nat
    decreases |log|
  {
    if log == [] then 0
    else CountExpanded(log[..|log| - 1]) + (if log[|log| - 1].Expanded? then 1 else 0)
  }

  /** What one removal may do, given the cells explored before it. */
  predicate RemovalFits(explored: set<Cell>, goal: Option<Cell>, r: Removal)
  {
    match r
    case ReachedGoal(c) => goal == Some(c)
    case Skipped(c) => goal != Some(c) && c in explored
    case Expanded(c) => goal != Some(c) && c !in explored
  }

  /** What `solve` does with a removed node at `c`: the goal test comes
      before the explored test. It is the one removal of `c` that fits. */
  function Classify(goal: Option<Cell>, explored: set<Cell>, c: Cell): (r: Removal)
    ensures r.state == c && RemovalFits(explored, goal, r)
    ensures forall r': Removal :: r'.state == c && RemovalFits(explored, goal, r') ==> r' == r
  {
    if Some(c) == goal then ReachedGoal(c)
    else if c in explored then Skipped(c)
    else Expanded(c)
  }

  /** Removal by removal, each entry of `log` fits the cells explored before
      it (those of `explored0` and those expanded earlier in the log), and
      only the last entry may reach the goal. */
  ghost predicate LogFits(explored0: set<Cell>, goal: Option<Cell>, log: seq<Removal>)
    decreases |log|
  {
    log == [] ||
    (var init, r := log[..|log| - 1], log[|log| - 1];
     LogFits(explored0, goal, init) &&
     (init != [] ==> !init[|init| - 1].ReachedGoal?) &&
     RemovalFits(explored0 + ExpandedIn(init), goal, r))
  }

  /** Appending a removal that fits the cells explored so far keeps the log
      fitting, as long as the goal had not been reached. */
  lemma LogAppend(explored0: set<Cell>, goal: Option<Cell>, log: seq<Removal>, r: Removal)
    requires LogFits(explored0, goal, log)
    requires log != [] ==> !log[|log| - 1].ReachedGoal?
    requires RemovalFits(explored0 + ExpandedIn(log), goal, r)
    ensures LogFits(explored0, goal, log + [r])
    ensures ExpandedIn(log + [r]) == ExpandedIn(log) + (if r.Expanded? then {r.state} else {})
    ensures CountExpanded(log + [r]) == CountExpanded(log) + (if r.Expanded? then 1 else 0)
  {
    assert (log + [r])[..|log|] == log;
  }

  /** Every prefix of a fitting log fits. */
  lemma {:induction false} LogFitsPrefix(explored0: set<Cell>, goal: Option<Cell>, log: seq<Removal>, n: nat)
    requires LogFits(explored0, goal, log) && n <= |log|
    ensures LogFits(explored0, goal, log[..n])
    decreases |log|
  {
    if n < |log| {
      var init := log[..|log| - 1];
      LogFitsPrefix(explored0, goal, init, n);
      assert init[..n] == log[..n];
    } else {
      assert log[..n] == log;
    }
  }

  /** A cell is in `ExpandedIn(log)` exactly when some entry expanded it. */
  lemma {:induction false} ExpandedInMembers(log: seq<Removal>, c: Cell)
    ensures c in ExpandedIn(log) <==> exists i :: 0 <= i < |log| && log[i] == Expanded(c)
    decreases |log|
  {
    if log != [] {
      var init := log[..|log| - 1];
      ExpandedInMembers(init, c);
      if c in ExpandedIn(init) {
        var i :| 0 <= i < |init| && init[i] == Expanded(c);
        assert log[i] == init[i];
      }
      if exists i :: 0 <= i < |log| && log[i] == Expanded(c) {
        var i :| 0 <= i < |log| && log[i] == Expanded(c);
        if i < |init| {
          assert init[i] == log[i];
        }
      }
    }
  }

  /** The index-wise reading of a fitting log: entry i fits the cells
      explored before it, and an entry that reaches the goal is the last. */
  lemma LogFitsAt(explored0: set<Cell>, goal: Option<Cell>, log: seq<Removal>, i: nat)
    requires LogFits(explored0, goal, log) && i < |log|
    ensures RemovalFits(explored0 + ExpandedIn(log[..i]), goal, log[i])
    ensures log[i].ReachedGoal? ==> i == |log| - 1
  {
    LogFitsPrefix(explored0, goal, log, i + 1);
    var pre := log[..i + 1];
    assert pre[..i] == log[..i] && pre[i] == log[i];
    if i < |log| - 1 {
      LogFitsPrefix(explored0, goal, log, i + 2);
      var pre2 := log[..i + 2];
      assert pre2[..i + 1] == pre;
    }
  }

  /** In a fitting log no cell is expanded twice, and none that was explored
      before the log began. */
  lemma ExpandedAtMostOnce(explored0: set<Cell>, goal: Option<Cell>, log: seq<Removal>)
    requires LogFits(explored0, goal, log)
    ensures forall i, j :: 0 <= i < j < |log| && log[i].Expanded? && log[j].Expanded? ==>
              log[i].state != log[j].state
    ensures ExpandedIn(log) !! explored0
  {
    forall i, j | 0 <= i < j < |log| && log[i].Expanded? && log[j].Expanded?
      ensures log[i].state != log[j].state
    {
      LogFitsAt(explored0, goal, log, j);
      assert log[..j][i] == log[i];
      ExpandedInMembers(log[..j], log[i].state);
    }
    forall c | c in ExpandedIn(log) ensures c !in explored0 {
      ExpandedInMembers(log, c);
      var i :| 0 <= i < |log| && log[i] == Expanded(c);
      LogFitsAt(explored0, goal, log, i);
    }
  }

  /** In a fitting log, the number of expansions is the number of cells
      expanded. */
  lemma {:induction false} CountIsCardinality(explored0: set<Cell>, goal: Option<Cell>, log: seq<Removal>)
    requires LogFits(explored0, goal, log)
    ensures CountExpanded(log) == |ExpandedIn(log)|
    decreases |log|
  {
    if log != [] {
      CountIsCardinality(explored0, goal, log[..|log| - 1]);
    }
  }
}
