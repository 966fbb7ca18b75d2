/** The maze grid: cells, the four moves, the wall glyph, the start/goal scan
    of `load_maze` and the `neighbors` function of `MazeSolver`, and walks
    through the grid. */
module MazeGrid {
  import opened Results

  /** A cell coordinate (row, column). Plain integers, because a candidate
      neighbour one step above row 0 or left of column 0 has coordinate -1. */
  type Cell = (int, int)

  /** The parsed maze: one sequence of characters per line of the file. */
  type Grid = seq<seq<char>>

  const Wall: char := '█'
  const StartMark: char := 'A'
  const GoalMark: char := 'B'

  datatype Action = Up | Down | Left | Right

  /** The position of an action in the fixed candidate order up, down, left, right. */
  function Rank(a: Action): nat
  {
    match a
    case Up => 0
    case Down => 1
    case Left => 2
    case Right => 3
  }

  /** The cell one move away from `c`. */
  function Step(c: Cell, a: Action): Cell
  {
    match a
    case Up => (c.0 - 1, c.1)
    case Down => (c.0 + 1, c.1)
    case Left => (c.0, c.1 - 1)
    case Right => (c.0, c.1 + 1)
  }

  /** A neighbour as `neighbors` reports it: the action and the cell it reaches. */
  datatype Move = Move(action: Action, cell: Cell)

  /** The error raised when a row is indexed past its end. */
  datatype IndexError = IndexError(cell: Cell)

  // ---------------------------------------------------------------------------
  // Bounds and cell kinds
  // ---------------------------------------------------------------------------

  /** `c` names a character of the grid: its row exists and is long enough. */
  predicate InRow(g: Grid, c: Cell)
  {
    0 <= c.0 < |g| && 0 <= c.1 < |g[c.0]|
  }

  /** The bounds test of `neighbors`: the row against the number of rows, the
      column against the length of the FIRST row. */
  predicate InBox(g: Grid, c: Cell)
  {
    0 <= c.0 < |g| && 0 <= c.1 < |g[0]|
  }

  /** A character of the grid that is not the wall glyph. */
  predicate Open(g: Grid, c: Cell)
  {
    InRow(g, c) && g[c.0][c.1] != Wall
  }

  /** A cell that `neighbors` keeps: it passes the bounds test and is not a wall. */
  predicate Passable(g: Grid, c: Cell)
  {
    InBox(g, c) && Open(g, c)
  }

  /** A cell that passes the bounds test but lies past the end of its own row,
      so that looking it up raises an index error. */
  predicate Ragged(g: Grid, c: Cell)
  {
    InBox(g, c) && !InRow(g, c)
  }

  /** Every row as long as the first. */
  predicate Rectangular(g: Grid)
  {
    forall i :: 0 <= i < |g| ==> |g[i]| == |g[0]|
  }

  /** The open cells of the grid, a finite set. */
  function OpenCells(g: Grid): (r: set<Cell>)
    ensures forall c :: c in r <==> Open(g, c)
  {
    set i, j | 0 <= i < |g| && 0 <= j < |g[i]| && g[i][j] != Wall :: (i, j)
  }

  // ---------------------------------------------------------------------------
  // neighbors
  // ---------------------------------------------------------------------------

  /** The four candidates of `neighbors`, in its fixed order. */
  function Candidates(s: Cell): seq<Move>
  {
    [Move(Up, Step(s, Up)), Move(Down, Step(s, Down)),
     Move(Left, Step(s, Left)), Move(Right, Step(s, Right))]
  }

  predicate RankIncreasing(ms: seq<Move>)
  {
    forall i, j :: 0 <= i < j < |ms| ==> Rank(ms[i].action) < Rank(ms[j].action)
  }

  /** The filter of `neighbors` on values: keeps, in order, the candidates
      that pass the bounds test and are not walls, and fails at the first
      candidate whose lookup indexes past the end of its row. */
  function KeepPassable(g: Grid, cs: seq<Move>): (r: Result<seq<Move>, IndexError>)
    ensures r.Success? <==> forall k :: 0 <= k < |cs| ==> !Ragged(g, cs[k].cell)
    ensures r.Failure? ==> Ragged(g, r.error.cell) && exists k :: 0 <= k < |cs| && cs[k].cell == r.error.cell
  {
    if cs == [] then Success([])
    else
      var c := cs[0].cell;
      if Ragged(g, c) then Failure(IndexError(c))
      else
        match KeepPassable(g, cs[1..])
        case Failure(e) => Failure(e)
        case Success(rest) => Success(if Passable(g, c) then [cs[0]] + rest else rest)
  }

  /** What the filter keeps: no more than it was given, exactly the passable
      candidates, and in their order. */
  lemma {:induction false} KeepPassableContents(g: Grid, cs: seq<Move>)
    requires KeepPassable(g, cs).Success?
    ensures |KeepPassable(g, cs).value| <= |cs|
    ensures forall m :: m in KeepPassable(g, cs).value <==> m in cs && Passable(g, m.cell)
    ensures RankIncreasing(cs) ==> RankIncreasing(KeepPassable(g, cs).value)
  {
    if cs != [] {
      var rest := cs[1..];
      KeepPassableContents(g, rest);
      assert forall m :: m in cs <==> m == cs[0] || m in rest;
      if RankIncreasing(cs) {
        assert RankIncreasing(rest);
        assert forall m :: m in rest ==> Rank(cs[0].action) < Rank(m.action);
      }
    }
  }

  /** Filtering a concatenation filters each part in turn: an error in the
      first part wins, then an error in the second, else the kept parts are
      joined. */
  lemma {:induction false} KeepPassableAppend(g: Grid, xs: seq<Move>, ys: seq<Move>)
    ensures KeepPassable(g, xs + ys) ==
              match KeepPassable(g, xs)
              case Failure(e) => Failure(e)
              case Success(a) =>
                match KeepPassable(g, ys)
                case Failure(e) => Failure(e)
                case Success(b) => Success(a + b)
  {
    if xs == [] {
      assert xs + ys == ys;
      if KeepPassable(g, ys).Success? {
        assert [] + KeepPassable(g, ys).value == KeepPassable(g, ys).value;
      }
    } else {
      assert (xs + ys)[0] == xs[0] && (xs + ys)[1..] == xs[1..] + ys;
      KeepPassableAppend(g, xs[1..], ys);
      if !Ragged(g, xs[0].cell) && KeepPassable(g, xs[1..]).Success? && KeepPassable(g, ys).Success? {
        var a, b := KeepPassable(g, xs[1..]).value, KeepPassable(g, ys).value;
        assert [xs[0]] + (a + b) == ([xs[0]] + a) + b;
      }
    }
  }

  /** The filter on one candidate. */
  lemma KeepPassableSingle(g: Grid, m: Move)
    ensures KeepPassable(g, [m]) ==
              if Ragged(g, m.cell) then Failure(IndexError(m.cell))
              else Success(if Passable(g, m.cell) then [m] else [])
  {
    assert [m][0] == m && [m][1..] == [] && [m] + [] == [m];
  }

  /** Every action's move appears among the candidates. */
  lemma CandidatesCoverActions(s: Cell)
    ensures forall a :: Move(a, Step(s, a)) in Candidates(s)
  {
    forall a ensures Move(a, Step(s, a)) in Candidates(s) {
      match a
      case Up => assert Candidates(s)[0] == Move(a, Step(s, a));
      case Down => assert Candidates(s)[1] == Move(a, Step(s, a));
      case Left => assert Candidates(s)[2] == Move(a, Step(s, a));
      case Right => assert Candidates(s)[3] == Move(a, Step(s, a));
    }
  }

  /** What `neighbors` returns, on values: the passable cells one move away,
      each with its action, in the order up, down, left, right; an index
      error when a candidate lies inside the first row's width but past its
      own row's end. */
  function Neighbors(g: Grid, s: Cell): (r: Result<seq<Move>, IndexError>)
    ensures r.Success? <==> forall a :: !Ragged(g, Step(s, a))
    ensures r.Failure? ==> Ragged(g, r.error.cell) && exists a :: r.error.cell == Step(s, a)
    ensures r.Success? ==> |r.value| <= 4 && RankIncreasing(r.value)
    ensures r.Success? ==> forall k :: 0 <= k < |r.value| ==>
              r.value[k].cell == Step(s, r.value[k].action) && Passable(g, r.value[k].cell)
    ensures r.Success? ==> forall a :: Passable(g, Step(s, a)) <==> Move(a, Step(s, a)) in r.value
  {
    var cs := Candidates(s);
    CandidatesCoverActions(s);
    var r := KeepPassable(g, cs);
    if r.Failure? then r
    else
      KeepPassableContents(g, cs);
      r
  }

  /** On a rectangular grid `neighbors` never raises. */
  lemma RectangularNeighbors(g: Grid, s: Cell)
    ensures Rectangular(g) ==> Neighbors(g, s).Success?
  {
  }

  // ---------------------------------------------------------------------------
  // Walks
  // ---------------------------------------------------------------------------

  /** Applying `path` move by move from `from` passes only through passable
      cells and ends at `to`. */
  predicate Walk(g: Grid, from: Cell, path: seq<Action>, to: Cell)
    decreases |path|
  {
    if path == [] then from == to
    else Passable(g, Step(from, path[0])) && Walk(g, Step(from, path[0]), path[1..], to)
  }

  /** A walk extended by one move onto a passable cell is a walk. */
  lemma {:induction false} WalkAppend(g: Grid, from: Cell, path: seq<Action>, to: Cell, a: Action)
    requires Walk(g, from, path, to) && Passable(g, Step(to, a))
    ensures Walk(g, from, path + [a], Step(to, a))
    decreases |path|
  {
    if path == [] {
      assert [a][1..] == [];
    } else {
      WalkAppend(g, Step(from, path[0]), path[1..], to, a);
      assert (path + [a])[1..] == path[1..] + [a];
    }
  }

  /** A set of cells that holds `from` and is closed under passable moves
      holds the end of every walk from `from`. */
  lemma {:induction false} ClosedSetHoldsWalks(g: Grid, e: set<Cell>, from: Cell, path: seq<Action>, to: Cell)
    requires from in e
    requires forall c, a :: c in e && Passable(g, Step(c, a)) ==> Step(c, a) in e
    requires Walk(g, from, path, to)
    ensures to in e
    decreases |path|
  {
    if path != [] {
      ClosedSetHoldsWalks(g, e, Step(from, path[0]), path[1..], to);
    }
  }

  // ---------------------------------------------------------------------------
  // The start/goal scan of load_maze
  // ---------------------------------------------------------------------------

  /** Cell (a, b) exists and comes before position (i, j) in row-major order. */
  predicate ScannedBefore(g: Grid, i: int, j: int, a: int, b: int)
  {
    0 <= a < |g| && 0 <= b < |g[a]| && (a < i || (a == i && b < j))
  }

  /** `p` is what the scan holds for marker `ch` after visiting every cell
      before (i, j): the last such cell carrying `ch`, or None if none does. */
  ghost predicate LastMarkerUpTo(g: Grid, ch: char, p: Option<Cell>, i: int, j: int)
  {
    match p
    case None => forall a, b :: ScannedBefore(g, i, j, a, b) ==> g[a][b] != ch
    case Some(c) =>
      ScannedBefore(g, i, j, c.0, c.1) && g[c.0][c.1] == ch &&
      forall a, b :: ScannedBefore(g, i, j, a, b) && (c.0 < a || (c.0 == a && c.1 < b)) ==> g[a][b] != ch
  }

  /** `p` is the last cell in row-major order carrying `ch`, or None. */
  ghost predicate IsLastMarker(g: Grid, ch: char, p: Option<Cell>)
  {
    LastMarkerUpTo(g, ch, p, |g|, 0)
  }

  /** The nested loops of `load_maze`: `start` is the last 'A' and `goal` the
      last 'B' in row-major order, None when there is none; duplicates and a
      missing marker are not rejected. */
  method FindMarkers(g: Grid) returns (start: Option<Cell>, goal: Option<Cell>)
    ensures IsLastMarker(g, StartMark, start) && IsLastMarker(g, GoalMark, goal)
  {
    start, goal := None, None;
    for i := 0 to |g|
      invariant LastMarkerUpTo(g, StartMark, start, i, 0)
      invariant LastMarkerUpTo(g, GoalMark, goal, i, 0)
    {
      for j := 0 to |g[i]|
        invariant LastMarkerUpTo(g, StartMark, start, i, j)
        invariant LastMarkerUpTo(g, GoalMark, goal, i, j)
      {
        if g[i][j] == StartMark {
          start := Some((i, j));
        } else if g[i][j] == GoalMark {
          goal := Some((i, j));
        }
      }
    }
  }

  /** The scan's result is determined: two results that both fit the
      description are equal. */
  lemma LastMarkerUnique(g: Grid, ch: char, p: Option<Cell>, q: Option<Cell>)
    requires IsLastMarker(g, ch, p) && IsLastMarker(g, ch, q)
    ensures p == q
  {
    if p.Some? && q.Some? {
      var c, d := p.value, q.value;
      assert ScannedBefore(g, |g|, 0, c.0, c.1) && ScannedBefore(g, |g|, 0, d.0, d.1);
    }
  }

  /** The start the scan reports is an open cell. */
  lemma StartIsOpen(g: Grid, c: Cell)
    requires IsLastMarker(g, StartMark, Some(c))
    ensures Open(g, c)
  {
  }
}
