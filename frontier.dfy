/** The two frontier containers of the solver. Both keep their pending nodes
    in one list that `add` appends to; they differ only in which end `remove`
    takes from. */
module Frontiers {
  import opened Results
  import opened MazeGrid

  /** A search node: the `(state, path)` pair that `solve` stores, the cell
      reached and the actions taken from the start to reach it. */
  datatype Node = Node(state: Cell, path: seq<Action>)

  /** The exception `remove` raises on an empty frontier ("Frontier is empty"). */
  datatype FrontierError = FrontierEmpty

  /** Some node of `ns` has state `s`, checked left to right as `any` does. */
  function HasState(ns: seq<Node>, s: Cell): (b: bool)
    ensures b <==> exists k :: 0 <= k < |ns| && ns[k].state == s
  {
    if ns == [] then false
    else ns[0].state == s || HasState(ns[1..], s)
  }

  /** `CustomStackFrontier`: `remove` takes the most recently added node. */
  class StackFrontier {
    var nodes: seq<Node>

    constructor ()
      ensures nodes == []
    {
      nodes := [];
    }

    method Add(n: Node)
      modifies this
      ensures nodes == old(nodes) + [n]
    {
      nodes := nodes + [n];
    }

    function ContainsState(s: Cell): (b: bool)
      reads this
      ensures b <==> exists k :: 0 <= k < |nodes| && nodes[k].state == s
    {
      HasState(nodes, s)
    }

    function Empty(): (b: bool)
      reads this
      ensures b <==> nodes == []
    {
      |nodes| == 0
    }

    /** Fails on an empty frontier; otherwise returns the last node added and
        keeps the earlier ones in order. */
    method Remove() returns (r: Result<Node, FrontierError>)
      modifies this
      ensures old(nodes) == [] ==> r == Failure(FrontierEmpty) && nodes == []
      ensures old(nodes) != [] ==> r == Success(old(nodes)[|old(nodes)| - 1]) &&
                                   nodes == old(nodes)[..|old(nodes)| - 1]
    {
      if Empty() {
        r := Failure(FrontierEmpty);
      } else {
        r := Success(nodes[|nodes| - 1]);
        nodes := nodes[..|nodes| - 1];
      }
    }
  }

  /** `CustomQueueFrontier`: `remove` takes the oldest node. */
  class QueueFrontier {
    var nodes: seq<Node>

    constructor ()
      ensures nodes == []
    {
      nodes := [];
    }

    method Add(n: Node)
      modifies this
      ensures nodes == old(nodes) + [n]
    {
      nodes := nodes + [n];
    }

    function ContainsState(s: Cell): (b: bool)
      reads this
      ensures b <==> exists k :: 0 <= k < |nodes| && nodes[k].state == s
    {
      HasState(nodes, s)
    }

    function Empty(): (b: bool)
      reads this
      ensures b <==> nodes == []
    {
      |nodes| == 0
    }

    /** Fails on an empty frontier; otherwise returns the first node added and
        keeps the rest in order. */
    method Remove() returns (r: Result<Node, FrontierError>)
      modifies this
      ensures old(nodes) == [] ==> r == Failure(FrontierEmpty) && nodes == []
      ensures old(nodes) != [] ==> r == Success(old(nodes)[0]) && nodes == old(nodes)[1..]
    {
      if Empty() {
        r := Failure(FrontierEmpty);
      } else {
        r := Success(nodes[0]);
        nodes := nodes[1..];
      }
    }
  }
}
