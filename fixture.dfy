/** The hand-written grid that maze.py, maze3.py, maze4.py and maze6.py search: six rows of
    six cells, the start in the top-left corner and the goal at row 2, column 3. Every
    explorer's contract is stated against the layout of its maze; this module works that
    layout out for the fixture and proves what those contracts then promise about it: the
    goal is reachable, and the shortest walk to it has ten cells. */
module Fixture {
  import opened Grid
  import Bfs

  /** The grid literal, row by row, read as `FromFixture` reads it: 1 is a wall, 0 an open
      cell, 'S' and 'G' the ends. */
  const Rows: seq<seq<Cell>> := [
    [Start, Open, Open, Open, Open, Open],
    [Wall, Open, Wall, Wall, Wall, Open],
    [Wall, Open, Wall, Goal, Wall, Open],
    [Wall, Open, Wall, Open, Wall, Open],
    [Wall, Open, Open, Open, Open, Open],
    [Wall, Wall, Wall, Wall, Wall, Open]
  ]

  const Origin: Pos := (0, 0)
  const Target: Pos := (2, 3)

  /** The cell the fixture holds at an in-range position. */
  function At(p: Pos): Cell
    requires InRange(6, 6, p)
  {
    Rows[p.0][p.1]
  }

  /** The layout the explorers search on the fixture: the walls are the cells holding 1. */
  ghost function FixtureLayout(): Layout {
    Layout(6, 6, set i, j | 0 <= i < 6 && 0 <= j < 6 && At((i, j)) == Wall :: (i, j))
  }

  /** A cell of the fixture is passable exactly when it is in range and does not hold 1. */
  lemma PassableAt(p: Pos)
    ensures Passable(FixtureLayout(), p) <==> InRange(6, 6, p) && At(p) != Wall
  {
    if InRange(6, 6, p) && At(p) == Wall {
      assert p == (p.0, p.1);
    }
  }

  /** A walk followed by a step onto a passable neighbour of its last cell is a walk. */
  lemma WalkExtends(l: Layout, w: seq<Pos>, q: Pos)
    requires IsWalk(l, w) && Adjacent(w[|w| - 1], q) && Passable(l, q)
    ensures IsWalk(l, w + [q])
  {
    var w' := w + [q];
    assert forall i :: 0 <= i < |w| ==> w'[i] == w[i];
  }

  /** The walk down column 1 and along row 4. */
  lemma TenCellWalk() returns (w: seq<Pos>)
    ensures |w| == 10 && IsWalk(FixtureLayout(), w) && w[0] == Origin && w[9] == Target
  {
    var l := FixtureLayout();
    var steps := [(0, 1), (1, 1), (2, 1), (3, 1), (4, 1), (4, 2), (4, 3), (3, 3), (2, 3)];
    w := [Origin];
    var k := 0;
    while k < 9
      invariant 0 <= k <= 9 && |w| == k + 1 && IsWalk(l, w) && w[0] == Origin
      invariant w[k] == if k == 0 then Origin else steps[k - 1]
    {
      PassableAt(steps[k]);
      WalkExtends(l, w, steps[k]);
      w := w + [steps[k]];
      k := k + 1;
    }
  }

  /** Builds the maze object over a fresh array holding the fixture, as the scripts hand it
      to their players. */
  method FixtureMaze() returns (m: Maze)
    ensures fresh(m.grid) && m.start == Origin && m.goal == Target
    ensures m.Valid() && m.Shape() == FixtureLayout()
  {
    var g := new Cell[6, 6];
    var i := 0;
    while i < 6
      invariant 0 <= i <= 6
      invariant forall r, c :: 0 <= r < i && 0 <= c < 6 ==> g[r, c] == At((r, c))
    {
      var j := 0;
      while j < 6
        invariant 0 <= j <= 6
        invariant forall r, c :: 0 <= r < i && 0 <= c < 6 ==> g[r, c] == At((r, c))
        invariant forall c :: 0 <= c < j ==> g[i, c] == At((i, c))
      {
        g[i, j] := At((i, j));
        j := j + 1;
      }
      i := i + 1;
    }
    m := new Maze(g, Origin, Target);
    assert m.walls == FixtureLayout().walls;
  }

  /** The number of moves from the start to each cell, -1 on walls. */
  const Distances: seq<seq<int>> := [
    [0, 1, 2, 3, 4, 5],
    [-1, 2, -1, -1, -1, 6],
    [-1, 3, -1, 9, -1, 7],
    [-1, 4, -1, 8, -1, 8],
    [-1, 5, 6, 7, 8, 9],
    [-1, -1, -1, -1, -1, 10]
  ]

  function Distance(p: Pos): int
    requires InRange(6, 6, p)
  {
    Distances[p.0][p.1]
  }

  /** The table marks exactly the walls, and one move from a passable cell raises the
      distance by at most one. */
  lemma DistanceStep(p: Pos, q: Pos)
    requires Passable(FixtureLayout(), p) && Passable(FixtureLayout(), q) && Adjacent(p, q)
    ensures 0 <= Distance(p) && 0 <= Distance(q) <= Distance(p) + 1
  {
    PassableAt(p);
    PassableAt(q);
    if p.0 == 0 {
    } else if p.0 == 1 {
    } else if p.0 == 2 {
    } else if p.0 == 3 {
    } else if p.0 == 4 {
    } else {
    }
  }

  /** Along a walk from the start, the `n`-th cell is at most `n` moves away. */
  lemma {:induction false} WalkDistance(w: seq<Pos>, n: nat)
    requires IsWalk(FixtureLayout(), w) && w[0] == Origin && n < |w|
    ensures Passable(FixtureLayout(), w[n]) && Distance(w[n]) <= n
    decreases n
  {
    if n == 0 {
      PassableAt(Origin);
    } else {
      WalkDistance(w, n - 1);
      DistanceStep(w[n - 1], w[n]);
    }
  }

  /** On the fixture the goal is reachable, and every walk from the start to the goal has
      at least ten cells; the walk down column 1 and along row 4 has exactly ten. */
  lemma ShortestWalk()
    ensures Reachable(FixtureLayout(), Origin, Target)
    ensures forall w :: IsWalk(FixtureLayout(), w) && w[0] == Origin && w[|w| - 1] == Target ==> |w| >= 10
  {
    var w := TenCellWalk();
    forall v | IsWalk(FixtureLayout(), v) && v[0] == Origin && v[|v| - 1] == Target
      ensures |v| >= 10
    {
      WalkDistance(v, |v| - 1);
    }
  }

  /** What the breadth-first explorer promises on success, specialised to the fixture: the
      rebuilt route has ten cells. */
  lemma FixtureRoute(route: seq<Pos>)
    requires IsWalk(FixtureLayout(), route) && route[0] == Origin && route[|route| - 1] == Target
    requires forall w :: IsWalk(FixtureLayout(), w) && w[0] == Origin && w[|w| - 1] == Target ==>
      |route| <= |w|
    ensures |route| == 10
  {
    ShortestWalk();
    var w := TenCellWalk();
  }

  /** The run at the bottom of maze6.py: a breadth-first player on the fixture finds the
      goal, and the route it rebuilds has ten cells, from the start to the goal. */
  method SolveFixture() returns (found: bool, route: seq<Pos>)
    ensures found && |route| == 10 && route[0] == Origin && route[9] == Target
  {
    var m := FixtureMaze();
    var player := new Bfs.Player(m);
    ghost var depth;
    found, route, depth := player.Bfs();
    ShortestWalk();
    FixtureRoute(route);
  }
}
