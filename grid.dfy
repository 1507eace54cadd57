/** The grid shared by every explorer and by the generator: cell states, coordinates,
    the four moves, the maze object with its bounds, wall and goal queries, and the
    reachability notions that the searches are specified against. */
module Grid {

  /** The state one grid position holds. The fixture grids write a wall as the integer 1
      and an open cell as 0; generated grids write '#' and '0'. Both use 'S', 'G' and the
      visited marker 'x', modelled as Start, Goal and Mark. */
  datatype Cell = Open | Wall | Start | Goal | Mark

  datatype Option<T> = None | Some(value: T)

  /** A coordinate (row, column). Neighbours are computed before any bounds check, so
      negative coordinates occur. */
  type Pos = (int, int)

  /** The moves every explorer tries, in this order: East, South, West, North. */
  const Moves: seq<(int, int)> := [(0, 1), (1, 0), (0, -1), (-1, 0)]

  function Neighbour(p: Pos, k: int): Pos
    requires 0 <= k < 4
  {
    (p.0 + Moves[k].0, p.1 + Moves[k].1)
  }

  /** Two positions one horizontal or vertical step apart. */
  predicate Adjacent(p: Pos, q: Pos) {
    (p.0 == q.0 && (q.1 == p.1 + 1 || q.1 == p.1 - 1)) ||
    (p.1 == q.1 && (q.0 == p.0 + 1 || q.0 == p.0 - 1))
  }

  /** Each move goes one step. */
  lemma NeighbourAdjacent(p: Pos, k: int)
    requires 0 <= k < 4
    ensures Adjacent(p, Neighbour(p, k))
  {
  }

  /** Every adjacent position is reached by exactly one of the four moves. */
  lemma AdjacentMove(p: Pos, q: Pos) returns (k: int)
    requires Adjacent(p, q)
    ensures 0 <= k < 4 && Neighbour(p, k) == q
    ensures forall j :: 0 <= j < 4 && j != k ==> Neighbour(p, j) != q
  {
    if q == (p.0, p.1 + 1) { k := 0; }
    else if q == (p.0 + 1, p.1) { k := 1; }
    else if q == (p.0, p.1 - 1) { k := 2; }
    else { k := 3; }
  }

  // ---------------------------------------------------------------------------
  // Two source encodings of a cell

  /** A cell value as the source stores it: an integer or a one-character string. */
  datatype Stored = Int(n: int) | Str(s: string)

  /** Reading of a fixture grid, where only the integer 1 is a wall. */
  function FromFixture(v: Stored): (c: Cell)
    ensures c == Wall <==> v == Int(1)
  {
    match v
    case Int(n) => if n == 1 then Wall else Open
    case Str(s) =>
      if s == "S" then Start else if s == "G" then Goal else if s == "x" then Mark else Open
  }

  /** Reading of a generated grid, where only '#' is a wall. */
  function FromGenerated(v: Stored): (c: Cell)
    ensures c == Wall <==> v == Str("#")
  {
    match v
    case Int(_) => Open
    case Str(s) =>
      if s == "#" then Wall else if s == "S" then Start else if s == "G" then Goal
      else if s == "x" then Mark else Open
  }

  /** 'S', 'G', the marker 'x' and open cells are passable under both readings. */
  lemma MarkersArePassable(v: Stored)
    requires v in {Str("S"), Str("G"), Str("x")}
    ensures FromFixture(v) != Wall && FromGenerated(v) != Wall
    ensures FromFixture(v) == FromGenerated(v)
  {
  }

  // ---------------------------------------------------------------------------
  // Layouts and reachability

  /** What a search depends on: the dimensions of a grid and where its walls are. */
  datatype Layout = Layout(height: int, width: int, walls: set<Pos>)

  predicate InRange(height: int, width: int, p: Pos) {
    0 <= p.0 < height && 0 <= p.1 < width
  }

  /** A cell a search may step onto: inside the grid and not a wall. */
  ghost predicate Passable(l: Layout, p: Pos) {
    InRange(l.height, l.width, p) && p !in l.walls
  }

  /** The in-range cells of a grid, row by row. It is a finite set containing every
      cell a search can mark, which bounds each search. */
  ghost function Cells(height: int, width: int): set<Pos>
    decreases height
  {
    if height <= 0 then {} else Cells(height - 1, width) + Row(height - 1, width)
  }

  ghost function Row(i: int, width: int): set<Pos>
    decreases width
  {
    if width <= 0 then {} else Row(i, width - 1) + {(i, width - 1)}
  }

  lemma {:induction false} InRow(i: int, width: int, j: int)
    requires 0 <= j < width
    ensures (i, j) in Row(i, width)
    decreases width
  {
    if j < width - 1 {
      InRow(i, width - 1, j);
    }
  }

  lemma {:induction false} InCells(height: int, width: int, p: Pos)
    requires InRange(height, width, p)
    ensures p in Cells(height, width)
    decreases height
  {
    if p.0 < height - 1 {
      InCells(height - 1, width, p);
    } else {
      InRow(p.0, width, p.1);
    }
  }

  /** Some finite set holding every in-range cell: what bounds each search. */
  lemma CellsBound(height: int, width: int) returns (u: set<Pos>)
    ensures forall p :: InRange(height, width, p) ==> p in u
  {
    u := Cells(height, width);
    forall p | InRange(height, width, p)
      ensures p in u
    {
      InCells(height, width, p);
    }
  }

  /** A walk: consecutive positions adjacent, every position after the first passable.
      The first position is not checked, exactly as no search checks its start cell. */
  ghost predicate IsWalk(l: Layout, w: seq<Pos>) {
    |w| > 0 &&
    forall i :: 0 < i < |w| ==> Adjacent(w[i - 1], w[i]) && Passable(l, w[i])
  }

  /** One step of a walk. */
  lemma WalkStep(l: Layout, w: seq<Pos>, i: int)
    requires IsWalk(l, w) && 0 < i < |w|
    ensures Adjacent(w[i - 1], w[i]) && Passable(l, w[i])
  {
  }

  ghost predicate Reachable(l: Layout, a: Pos, b: Pos) {
    exists w :: IsWalk(l, w) && w[0] == a && w[|w| - 1] == b
  }

  lemma ReachableSelf(l: Layout, a: Pos)
    ensures Reachable(l, a, a)
  {
    assert IsWalk(l, [a]);
  }

  /** One more step onto a passable neighbour keeps a cell reachable. */
  lemma ReachableStep(l: Layout, a: Pos, c: Pos, n: Pos)
    requires Reachable(l, a, c)
    requires Adjacent(c, n) && Passable(l, n)
    ensures Reachable(l, a, n)
  {
    var w :| IsWalk(l, w) && w[0] == a && w[|w| - 1] == c;
    var w' := w + [n];
    assert IsWalk(l, w');
  }

  /** Every passable 4-neighbour of a cell of S lies in T. */
  ghost predicate ClosedIn(l: Layout, s: set<Pos>, t: set<Pos>) {
    forall c, k :: c in s && 0 <= k < 4 && Passable(l, Neighbour(c, k)) ==> Neighbour(c, k) in t
  }

  /** One passable neighbour of a cell of a closed set. */
  lemma ClosedStep(l: Layout, s: set<Pos>, t: set<Pos>, c: Pos, k: int)
    requires ClosedIn(l, s, t) && c in s && 0 <= k < 4 && Passable(l, Neighbour(c, k))
    ensures Neighbour(c, k) in t
  {
  }

  lemma ClosedInGrows(l: Layout, s: set<Pos>, t: set<Pos>, t': set<Pos>)
    requires ClosedIn(l, s, t) && t <= t'
    ensures ClosedIn(l, s, t')
  {
  }

  /** The first k moves from `p` lead nowhere passable that is not yet in `v`. */
  ghost predicate MovesSeen(l: Layout, p: Pos, k: int, v: set<Pos>)
    requires 0 <= k <= 4
  {
    forall j :: 0 <= j < k && Passable(l, Neighbour(p, j)) ==> Neighbour(p, j) in v
  }

  lemma MovesSeenGrows(l: Layout, p: Pos, k: int, v: set<Pos>, v': set<Pos>)
    requires 0 <= k < 4
    requires MovesSeen(l, p, k, v) && v <= v'
    requires Passable(l, Neighbour(p, k)) ==> Neighbour(p, k) in v'
    ensures MovesSeen(l, p, k + 1, v')
  {
  }

  /** A cell whose four moves have all been seen may join a closed set. */
  lemma MovesSeenCloses(l: Layout, s: set<Pos>, p: Pos, v: set<Pos>, t: set<Pos>)
    requires MovesSeen(l, p, 4, v) && ClosedIn(l, s, v)
    requires t <= s + {p}
    ensures ClosedIn(l, t, v)
  {
  }

  /** Closed sets combine, against the larger of their targets. */
  lemma ClosedUnion(l: Layout, a: set<Pos>, b: set<Pos>, t: set<Pos>, t': set<Pos>, s: set<Pos>)
    requires ClosedIn(l, a, t) && ClosedIn(l, b, t') && t <= t' && s <= a + b
    ensures ClosedIn(l, s, t')
  {
  }

  /** A walk that starts in S, where S is closed up to the cells of `avoid`, and that never
      steps onto `avoid`, stays inside S. This is why an exhausted search has seen
      everything reachable from where it started. */
  lemma {:induction false} WalkStaysInside(l: Layout, s: set<Pos>, avoid: set<Pos>, w: seq<Pos>)
    requires IsWalk(l, w) && w[0] in s
    requires ClosedIn(l, s, s + avoid)
    requires forall i :: 0 < i < |w| ==> w[i] !in avoid
    ensures forall i :: 0 <= i < |w| ==> w[i] in s
  {
    if |w| > 1 {
      var u := w[..|w| - 1];
      assert IsWalk(l, u);
      WalkStaysInside(l, s, avoid, u);
      var c := w[|w| - 2];
      var k := AdjacentMove(c, w[|w| - 1]);
      assert c in s;
    }
  }

  /** A cell outside a closed set containing the start is unreachable from it. */
  lemma ClosedSetUnreachable(l: Layout, s: set<Pos>, a: Pos, b: Pos)
    requires a in s && b !in s
    requires ClosedIn(l, s, s)
    ensures !Reachable(l, a, b)
  {
    if Reachable(l, a, b) {
      var w :| IsWalk(l, w) && w[0] == a && w[|w| - 1] == b;
      WalkStaysInside(l, s, {}, w);
      assert false;
    }
  }

  /** Every entry of `s` lies in `c`. */
  ghost predicate AllIn(s: seq<Pos>, c: set<Pos>) {
    forall i :: 0 <= i < |s| ==> s[i] in c
  }

  /** No position occurs twice in `s`. */
  ghost predicate Distinct(s: seq<Pos>) {
    forall i, j :: 0 <= i < j < |s| ==> s[i] != s[j]
  }

  /** A position that is not in a walk without repetitions may be added at either end. */
  lemma DistinctEnds(s: seq<Pos>, x: Pos)
    requires Distinct(s) && forall i :: 0 <= i < |s| ==> s[i] != x
    ensures Distinct(s + [x]) && Distinct([x] + s)
  {
  }

  /** The moves of a call at `position` before its `move`-th one all came to nothing.
      `entered` is what `visited` held once `position` was marked and `before` what it held
      when the `move`-th move began: by then every earlier passable neighbour had been
      visited, and every cell the earlier calls visited had had all its passable
      neighbours visited too, so none of those calls reached the goal. */
  ghost predicate TriedBefore(l: Layout, position: Pos, move: int, entered: set<Pos>, before: set<Pos>) {
    0 <= move < 4 && position in entered && entered <= before &&
    MovesSeen(l, position, move, before) && ClosedIn(l, before - entered, before)
  }

  /** `s` backwards; the explorers print their recorded paths in this order. */
  function Reversed(s: seq<Pos>): (r: seq<Pos>)
    ensures |r| == |s|
    ensures forall i :: 0 <= i < |s| ==> r[i] == s[|s| - 1 - i]
  {
    if s == [] then [] else Reversed(s[1..]) + [s[0]]
  }

  /** A path recorded goal first, as the recursive explorer of maze.py and the path
      reconstruction of the breadth-first explorer build it: it starts at `goal`, ends at
      `origin`, each entry is a step away from the next, and every entry but the origin is
      passable. */
  ghost predicate IsReturnWalk(l: Layout, r: seq<Pos>, origin: Pos, goal: Pos) {
    |r| > 0 && r[0] == goal && r[|r| - 1] == origin &&
    forall i :: 0 <= i < |r| - 1 ==> Adjacent(r[i + 1], r[i]) && Passable(l, r[i])
  }

  /** Reading a walk backwards repeats no position it did not repeat. */
  lemma ReversedDistinct(s: seq<Pos>)
    requires Distinct(s)
    ensures Distinct(Reversed(s))
  {
    var r := Reversed(s);
    forall i, j | 0 <= i < j < |r|
      ensures r[i] != r[j]
    {
      assert r[i] == s[|s| - 1 - i] && r[j] == s[|s| - 1 - j];
    }
  }

  /** A three-by-three layout with walls at (1, 2) and (2, 1). From (0, 0) the cell (0, 2)
      lies two steps East; it can also be reached by first going South, through (1, 0),
      (1, 1) and (0, 1). A search that tries East first therefore never takes the detour. */
  const Detour: Layout := Layout(3, 3, {(1, 2), (2, 1)})

  /** Reading a return walk backwards gives a walk from the origin to the goal. */
  lemma ReversedReturnWalk(l: Layout, r: seq<Pos>, origin: Pos, goal: Pos)
    requires IsReturnWalk(l, r, origin, goal)
    ensures IsWalk(l, Reversed(r))
    ensures Reversed(r)[0] == origin && Reversed(r)[|r| - 1] == goal
  {
    var w := Reversed(r);
    forall i | 0 < i < |w|
      ensures Adjacent(w[i - 1], w[i]) && Passable(l, w[i])
    {
      var j := |r| - 1 - i;
      assert w[i] == r[j] && w[i - 1] == r[j + 1];
    }
  }

  /** The numbered trace the explorers keep: entry i holds the number i + 1 and the i-th
      recorded position, so the numbers run 1, 2, 3, ... with no gaps. */
  function Numbered(s: seq<Pos>): seq<(int, Pos)> {
    if s == [] then [] else Numbered(s[..|s| - 1]) + [(|s|, s[|s| - 1])]
  }

  lemma {:induction false} NumberedEntries(s: seq<Pos>)
    ensures |Numbered(s)| == |s|
    ensures forall i :: 0 <= i < |s| ==> Numbered(s)[i] == (i + 1, s[i])
  {
    if s != [] {
      NumberedEntries(s[..|s| - 1]);
    }
  }

  /** The records of `s` numbered on from `n`: entry i holds the number n + i + 1. */
  function NumberedFrom(n: int, s: seq<Pos>): (e: seq<(int, Pos)>)
    ensures |e| == |s| && forall i :: 0 <= i < |s| ==> e[i] == (n + i + 1, s[i])
    decreases |s|
  {
    if s == [] then [] else [(n + 1, s[0])] + NumberedFrom(n + 1, s[1..])
  }

  /** Numbering a trace that goes on with `b` numbers `b` on from the length of `a`. */
  lemma NumberedConcat(a: seq<Pos>, b: seq<Pos>)
    ensures Numbered(a + b) == Numbered(a) + NumberedFrom(|a|, b)
  {
    NumberedEntries(a + b);
    NumberedEntries(a);
  }

  /** Recording one more position appends the next number. */
  lemma NumberedAppend(prefix: seq<(int, Pos)>, s: seq<Pos>, x: Pos)
    ensures prefix + Numbered(s + [x]) == prefix + Numbered(s) + [(|s| + 1, x)]
  {
    calc {
      prefix + Numbered(s + [x]);
      { assert (s + [x])[..|s|] == s; }
      prefix + (Numbered(s) + [(|s| + 1, x)]);
      { AppendAssociates(prefix, Numbered(s), [(|s| + 1, x)]); }
      prefix + Numbered(s) + [(|s| + 1, x)];
    }
  }

  lemma AppendAssociates<T>(a: seq<T>, b: seq<T>, c: seq<T>)
    ensures a + (b + c) == a + b + c
  {
    var left, right := a + (b + c), a + b + c;
    assert |left| == |right|;
    forall i | 0 <= i < |left|
      ensures left[i] == right[i]
    {
      if i < |a| {
      } else if i < |a| + |b| {
      } else {
      }
    }
  }

  /** Consecutive entries one step apart. */
  ghost predicate IsStepSeq(s: seq<Pos>) {
    |s| > 0 && forall i :: 0 < i < |s| ==> Adjacent(s[i - 1], s[i])
  }

  /** Removing cells of a finite universe from the visited set shrinks what is left to visit;
      the termination measure of every search. */
  lemma UnvisitedShrinks(u: set<Pos>, v0: set<Pos>, v: set<Pos>, x: Pos)
    requires v0 <= v && x in u && x in v && x !in v0
    ensures |u - v| < |u - v0|
  {
    var a := u - v;
    var b := (u - v0) - {x};
    assert a <= b;
    assert b == a + (b - a);
    assert |b| == |a| + |b - a|;
    assert u - v0 == b + {x};
  }

  /** The contents of a grid at one moment. */
  ghost function Snapshot(g: array2<Cell>): (m: map<Pos, Cell>)
    reads g
    ensures forall i, j :: 0 <= i < g.Length0 && 0 <= j < g.Length1 ==> (i, j) in m && m[(i, j)] == g[i, j]
  {
    map i, j | 0 <= i < g.Length0 && 0 <= j < g.Length1 :: (i, j) := g[i, j]
  }

  /** The grid holds the marker on `cells` and the snapshot's contents everywhere else. */
  ghost predicate MarkedOver(g: array2<Cell>, g0: map<Pos, Cell>, cells: set<Pos>)
    reads g
  {
    forall i, j :: 0 <= i < g.Length0 && 0 <= j < g.Length1 ==>
      (i, j) in g0 && g[i, j] == if (i, j) in cells then Mark else g0[(i, j)]
  }

  // ---------------------------------------------------------------------------
  // The maze object

  /** The maze handed to an explorer. The array is shared with whoever built it and the
      explorers overwrite visited cells with the marker; the dimensions, start and goal
      never change. `walls` is the layout of walls, which no explorer alters. */
  class Maze {
    const grid: array2<Cell>
    const start: Pos
    const goal: Pos
    ghost const walls: set<Pos>

    /** The walls recorded in `walls` are exactly the wall cells of the grid. */
    ghost predicate Valid()
      reads grid
    {
      (forall p :: p in walls ==> InRange(grid.Length0, grid.Length1, p)) &&
      forall i, j :: 0 <= i < grid.Length0 && 0 <= j < grid.Length1 ==>
        (grid[i, j] == Wall <==> (i, j) in walls)
    }

    ghost function Shape(): Layout {
      Layout(grid.Length0, grid.Length1, walls)
    }

    constructor(grid: array2<Cell>, start: Pos, goal: Pos)
      ensures this.grid == grid && this.start == start && this.goal == goal
      ensures Valid()
    {
      this.grid := grid;
      this.start := start;
      this.goal := goal;
      this.walls := set i, j | 0 <= i < grid.Length0 && 0 <= j < grid.Length1 && grid[i, j] == Wall :: (i, j);
    }

    predicate IsWithinBounds(p: Pos)
      ensures IsWithinBounds(p) ==> grid.Length0 > 0 && grid.Length1 > 0
    {
      0 <= p.0 < grid.Length0 && 0 <= p.1 < grid.Length1
    }

    /** On a valid maze, the wall test on an in-range cell agrees with the wall layout. */
    predicate IsWall(p: Pos)
      reads grid
      requires IsWithinBounds(p)
      ensures Valid() ==> (IsWall(p) <==> p in walls)
    {
      grid[p.0, p.1] == Wall
    }

    /** An explorer overwriting a passable cell with the visited marker: the wall layout is
        untouched and the marked cells grow by `p`. */
    method MarkVisited(p: Pos, ghost g0: map<Pos, Cell>, ghost cells: set<Pos>)
      requires Valid() && Passable(Shape(), p)
      requires MarkedOver(grid, g0, cells)
      modifies grid
      ensures Valid()
      ensures MarkedOver(grid, g0, cells + {p})
    {
      grid[p.0, p.1] := Mark;
    }

    /** The goal test compares coordinates, not the cell's state, so it still holds after
        the goal cell has been overwritten with the marker. */
    predicate IsGoal(p: Pos)
      ensures IsGoal(p) <==> p == goal
    {
      p == goal
    }

    /** The test every explorer applies to a neighbour before stepping onto it agrees with
        the layout. */
    lemma CanStepIff(p: Pos)
      requires Valid()
      ensures (IsWithinBounds(p) && !IsWall(p)) <==> Passable(Shape(), p)
    {
    }
  }
}
