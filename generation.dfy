/** The maze generator of maze7.py and maze8.py: frontier-wall carving from the start, a
    breadth-first solvability test, a bounded number of attempts, and a fallback grid of
    randomly placed walls. Random picks are nondeterministic choices; the wall budget
    int(width * height * 0.3) is an opaque natural number. */
module Generation {
  import opened Grid

  /** The cell two steps away from `p` along move `k`: the cell whose state decides
      whether the wall between them becomes a carving candidate. */
  function Beyond(p: Pos, k: int): Pos
    requires 0 <= k < 4
  {
    (p.0 + 2 * Moves[k].0, p.1 + 2 * Moves[k].1)
  }

  /** The cell on the far side of `q` as seen from `p`. */
  function Across(p: Pos, q: Pos): Pos {
    (2 * q.0 - p.0, 2 * q.1 - p.1)
  }

  lemma AcrossBeyond(p: Pos, k: int)
    requires 0 <= k < 4
    ensures Across(p, Neighbour(p, k)) == Beyond(p, k)
  {
  }

  /** The wall cells of a grid. */
  ghost function WallsOf(g: array2<Cell>): set<Pos>
    reads g
  {
    set i, j | 0 <= i < g.Length0 && 0 <= j < g.Length1 && g[i, j] == Wall :: (i, j)
  }

  /** The layout a search over the grid sees. */
  ghost function LayoutOf(g: array2<Cell>): (l: Layout)
    reads g
    ensures forall p :: Passable(l, p) <==> InRange(g.Length0, g.Length1, p) && g[p.0, p.1] != Wall
  {
    Layout(g.Length0, g.Length1, WallsOf(g))
  }

  /** A freshly built grid: all walls except 'S' at the start and 'G' at the goal, the goal
      written last so that it wins when the two coincide. */
  ghost predicate FreshForm(g: array2<Cell>, start: Pos, goal: Pos)
    reads g
  {
    forall i, j :: 0 <= i < g.Length0 && 0 <= j < g.Length1 ==>
      g[i, j] == if (i, j) == goal then Goal else if (i, j) == start then Start else Wall
  }

  /** The fallback grid: open cells and walls, 'G' at the goal, 'S' at the start unless the
      goal is there, no wall on either, and at most `budget` walls. */
  ghost predicate FallbackForm(g: array2<Cell>, start: Pos, goal: Pos, budget: nat)
    reads g
  {
    (forall i, j :: 0 <= i < g.Length0 && 0 <= j < g.Length1 ==>
      g[i, j] == if (i, j) == goal then Goal else if (i, j) == start then Start
                 else if g[i, j] == Wall then Wall else Open) &&
    |WallsOf(g)| <= budget
  }

  /** An open grid with 'G' at the goal, 'S' at the start unless the goal is there, and
      walls exactly on `placed`. */
  ghost predicate WallsAt(g: array2<Cell>, start: Pos, goal: Pos, placed: set<Pos>)
    reads g
  {
    forall i, j :: 0 <= i < g.Length0 && 0 <= j < g.Length1 ==>
      g[i, j] == if (i, j) == goal then Goal else if (i, j) == start then Start
                 else if (i, j) in placed then Wall else Open
  }

  lemma WallsAtForm(g: array2<Cell>, start: Pos, goal: Pos, placed: set<Pos>, budget: nat)
    requires WallsAt(g, start, goal, placed) && |placed| <= budget
    requires forall q :: q in placed ==> InRange(g.Length0, g.Length1, q) && q != start && q != goal
    ensures FallbackForm(g, start, goal, budget)
  {
    assert WallsOf(g) == placed;
  }

  /** The position of the first occurrence of `x` in `s`. */
  function FirstIndex(s: seq<Pos>, x: Pos): (i: int)
    requires x in s
    ensures 0 <= i < |s| && s[i] == x && forall j :: 0 <= j < i ==> s[j] != x
  {
    if s[0] == x then 0 else 1 + FirstIndex(s[1..], x)
  }

  /** `s` without its first occurrence of `x`, as Python's `list.remove` does: one copy of
      `x` fewer, everything else kept. */
  function RemoveFirst(s: seq<Pos>, x: Pos): (r: seq<Pos>)
    requires x in s
    ensures multiset(r) == multiset(s) - multiset{x}
    ensures |r| == |s| - 1 && forall q :: q in r ==> q in s
  {
    var i := FirstIndex(s, x);
    assert s == s[..i] + [x] + s[i + 1..];
    s[..i] + s[i + 1..]
  }

  /** The searches over a fresh grid: only the start and the goal are passable, so the goal
      is reachable exactly when it is the start or one step from it. */
  lemma {:induction false} FreshReachable(g: array2<Cell>, start: Pos, goal: Pos)
    requires FreshForm(g, start, goal) && InRange(g.Length0, g.Length1, goal)
    ensures Reachable(LayoutOf(g), start, goal) <==> goal == start || Adjacent(start, goal)
  {
    var l := LayoutOf(g);
    if goal == start {
      ReachableSelf(l, start);
    } else if Adjacent(start, goal) {
      assert IsWalk(l, [start, goal]);
    } else if Reachable(l, start, goal) {
      var w :| IsWalk(l, w) && w[0] == start && w[|w| - 1] == goal;
      FreshFirstStep(g, start, goal, w);
      assert false;
    }
  }

  /** The first step of a walk from the start over a fresh grid lands on the goal. */
  lemma FreshFirstStep(g: array2<Cell>, start: Pos, goal: Pos, w: seq<Pos>)
    requires FreshForm(g, start, goal) && IsWalk(LayoutOf(g), w) && w[0] == start && |w| > 1
    ensures w[1] == goal && Adjacent(start, goal)
  {
    assert Adjacent(w[0], w[1]) && Passable(LayoutOf(g), w[1]);
  }

  /** The state of the solvability test between iterations: every visited cell is reachable,
      `queued` lists the visited cells in the order they were queued, each once, the queue is
      its tail after the `done` cells, and every passable neighbour of a done cell is
      visited. */
  ghost predicate Searching(l: Layout, start: Pos, goal: Pos, queue: seq<Pos>,
                            visited: set<Pos>, done: set<Pos>, queued: seq<Pos>)
  {
    start in visited && goal !in done && |queued| > 0 && queued[0] == start &&
    (forall c :: c in visited ==> Reachable(l, start, c)) &&
    (forall c :: c in visited <==> c in queued) &&
    (forall c :: c in visited <==> c in done || c in queue) &&
    (forall i :: 0 <= i < |queue| ==> queue[i] !in done) &&
    (forall i, j :: 0 <= i < j < |queue| ==> queue[i] != queue[j]) &&
    (forall i, j :: 0 <= i < j < |queued| ==> queued[i] != queued[j]) &&
    ClosedIn(l, done, visited)
  }

  /** Queueing a passable, unvisited neighbour of the dequeued cell `p`. */
  lemma SearchingPush(l: Layout, start: Pos, goal: Pos, p: Pos, queue: seq<Pos>, visited: set<Pos>,
                      done: set<Pos>, queued: seq<Pos>, k: int)
    requires Searching(l, start, goal, [p] + queue, visited, done, queued) && 0 <= k < 4
    requires Passable(l, Neighbour(p, k)) && Neighbour(p, k) !in visited
    ensures var n := Neighbour(p, k);
      Searching(l, start, goal, [p] + (queue + [n]), visited + {n}, done, queued + [n])
  {
    var n := Neighbour(p, k);
    assert ([p] + queue)[0] == p;
    NeighbourAdjacent(p, k);
    ReachableStep(l, start, p, n);
    assert [p] + (queue + [n]) == ([p] + queue) + [n];
    ClosedInGrows(l, done, visited, visited + {n});
  }

  /** Retiring the dequeued cell `p` once its four moves have been seen. */
  lemma SearchingPop(l: Layout, start: Pos, goal: Pos, p: Pos, queue: seq<Pos>, visited: set<Pos>,
                     done: set<Pos>, queued: seq<Pos>)
    requires Searching(l, start, goal, [p] + queue, visited, done, queued) && p != goal
    requires MovesSeen(l, p, 4, visited)
    ensures Searching(l, start, goal, queue, visited, done + {p}, queued)
  {
    assert ([p] + queue)[0] == p;
    assert forall i :: 0 <= i < |queue| ==> queue[i] == ([p] + queue)[i + 1];
    MovesSeenCloses(l, done, p, visited, done + {p});
  }

  /** The number of cells the generator adds at most to the candidate list from a grid with
      no open cell: the four candidates around the start, none of which can be carved. */
  const CarveFuel: nat := 4

  /** The number of attempts each generator makes before it falls back. */
  const MaxAttempts: nat := 100

  /** The generator of maze7.py and maze8.py. `grid` is replaced on every attempt; the
      carving writes into it in place. */
  class MazeGenerator {
    const width: int
    const height: int
    const start: Pos
    var goal: Pos
    var grid: array2?<Cell>
    /** int(width * height * 0.3), the number of random wall placements of the fallback. */
    const budget: nat

    /** The grid has the generator's dimensions and holds both endpoints. */
    ghost predicate Valid()
      reads this
    {
      grid != null && grid.Length0 == height && grid.Length1 == width &&
      InRange(height, width, start) && InRange(height, width, goal)
    }

    /** maze7.py:5-10: the start is the top-left cell, the goal the bottom-right one, and no
        grid exists before the first attempt. */
    constructor FixedGoal(width: int, height: int, budget: nat)
      ensures this.width == width && this.height == height && this.budget == budget
      ensures start == (0, 0) && goal == (height - 1, width - 1) && grid == null
    {
      this.width, this.height, this.budget := width, height, budget;
      start := (0, 0);
      goal := (height - 1, width - 1);
      grid := null;
    }

    /** maze8.py:5-13: an all-wall grid and a goal picked anywhere in it, the start
        included. */
    constructor RandomGoal(width: int, height: int, budget: nat)
      requires width >= 1 && height >= 1
      ensures this.width == width && this.height == height && this.budget == budget
      ensures start == (0, 0) && Valid() && fresh(grid)
      ensures forall i, j :: 0 <= i < height && 0 <= j < width ==> grid[i, j] == Wall
    {
      this.width, this.height, this.budget := width, height, budget;
      start := (0, 0);
      grid := new Cell[height, width]((i, j) => Wall);
      assert InRange(height, width, (0, 0));
      var g :| InRange(height, width, g);
      goal := g;
    }

    /** maze8.py:12-13: a cell picked anywhere in the grid. */
    method RandomPosition() returns (p: Pos)
      requires height >= 1 && width >= 1
      ensures InRange(height, width, p)
    {
      assert InRange(height, width, (0, 0));
      p :| InRange(height, width, p);
    }

    /** Every cell of the grid is a wall. */
    ghost predicate AllWalls()
      reads this, grid
      requires Valid()
    {
      forall i, j :: 0 <= i < height && 0 <= j < width ==> grid[i, j] == Wall
    }

    /** Whether `p` is in the grid and holds the open marker '0'; the start 'S' and the goal
        'G' are not open. */
    predicate IsOpenAt(p: Pos)
      reads this, grid
      requires Valid()
    {
      0 <= p.0 < height && 0 <= p.1 < width && grid[p.0, p.1] == Open
    }

    /** How many of the first `k` moves from `p` land on an open cell. */
    function OpenCount(p: Pos, k: int): nat
      reads this, grid
      requires Valid() && 0 <= k <= 4
    {
      if k == 0 then 0 else OpenCount(p, k - 1) + if IsOpenAt(Neighbour(p, k - 1)) then 1 else 0
    }

    lemma OpenCountFour(p: Pos)
      requires Valid()
      ensures OpenCount(p, 4) ==
        (if IsOpenAt(Neighbour(p, 0)) then 1 else 0) + (if IsOpenAt(Neighbour(p, 1)) then 1 else 0) +
        (if IsOpenAt(Neighbour(p, 2)) then 1 else 0) + (if IsOpenAt(Neighbour(p, 3)) then 1 else 0)
    {
      assert OpenCount(p, 1) == if IsOpenAt(Neighbour(p, 0)) then 1 else 0;
      assert OpenCount(p, 2) == OpenCount(p, 1) + if IsOpenAt(Neighbour(p, 1)) then 1 else 0;
      assert OpenCount(p, 3) == OpenCount(p, 2) + if IsOpenAt(Neighbour(p, 2)) then 1 else 0;
    }

    /** maze7.py:45-48, maze8.py:62-65: a candidate may be carved exactly when one and only
        one of its four neighbours is open. */
    function CanBePath(p: Pos): (r: bool)
      reads this, grid
      requires Valid()
      ensures r <==> (exists k :: 0 <= k < 4 && IsOpenAt(Neighbour(p, k))) &&
                     forall j, k :: 0 <= j < k < 4 && IsOpenAt(Neighbour(p, j)) ==> !IsOpenAt(Neighbour(p, k))
    {
      OpenCountFour(p);
      OpenCount(p, 4) == 1
    }

    /** No cell of the grid holds the open marker. */
    ghost predicate NoOpen()
      reads this, grid
      requires Valid()
    {
      forall i, j :: 0 <= i < height && 0 <= j < width ==> grid[i, j] != Open
    }

    /** Without an open cell nothing can be carved: 'S' and 'G' do not count as open. */
    lemma NothingToCarve(p: Pos)
      requires Valid() && NoOpen()
      ensures !CanBePath(p)
    {
      forall k | 0 <= k < 4
        ensures !IsOpenAt(Neighbour(p, k))
      {
      }
    }

    /** The candidates moves `k` to 3 from `cell` add, in East, South, West, North order:
        the cell one step away, once, for each move whose cell two steps away is inside the
        grid and a wall. */
    ghost function Candidates(cell: Pos, k: int): seq<Pos>
      reads this, grid
      requires Valid() && 0 <= k <= 4
      decreases 4 - k
    {
      if k == 4 then []
      else if InRange(height, width, Beyond(cell, k)) && grid[Beyond(cell, k).0, Beyond(cell, k).1] == Wall then
        [Neighbour(cell, k)] + Candidates(cell, k + 1)
      else Candidates(cell, k + 1)
    }

    /** What the candidates of moves `k` to 3 are: at most one per move, each a neighbour
        of `cell` whose far side is a wall inside the grid, and every such move's neighbour. */
    lemma {:induction false} CandidatesAround(cell: Pos, k: int)
      requires Valid() && 0 <= k <= 4
      ensures |Candidates(cell, k)| <= 4 - k
      ensures forall q :: q in Candidates(cell, k) ==>
        Adjacent(cell, q) && (InRange(height, width, cell) ==> InRange(height, width, q)) &&
        InRange(height, width, Across(cell, q)) && grid[Across(cell, q).0, Across(cell, q).1] == Wall
      ensures forall j ::
        (k <= j < 4 && InRange(height, width, Beyond(cell, j)) && grid[Beyond(cell, j).0, Beyond(cell, j).1] == Wall)
        ==> Neighbour(cell, j) in Candidates(cell, k)
      decreases 4 - k
    {
      if k < 4 {
        CandidatesAround(cell, k + 1);
        NeighbourAdjacent(cell, k);
        AcrossBeyond(cell, k);
      }
    }

    /** maze7.py:38-43, maze8.py:55-60: for each move from `cell`, in the order East, South,
        West, North, the cell one step away becomes a candidate when the cell two steps away
        is inside the grid and a wall. Candidates around a cell inside the grid are inside
        the grid. */
    method AddWalls(cell: Pos, walls: seq<Pos>) returns (walls': seq<Pos>)
      requires Valid()
      ensures |walls| <= |walls'| <= |walls| + 4 && walls'[..|walls|] == walls
      ensures forall i :: |walls| <= i < |walls'| ==>
        Adjacent(cell, walls'[i]) && (InRange(height, width, cell) ==> InRange(height, width, walls'[i])) &&
        InRange(height, width, Across(cell, walls'[i])) && grid[Across(cell, walls'[i]).0, Across(cell, walls'[i]).1] == Wall
      ensures forall k ::
        (0 <= k < 4 && InRange(height, width, Beyond(cell, k)) && grid[Beyond(cell, k).0, Beyond(cell, k).1] == Wall)
        ==> Neighbour(cell, k) in walls'[|walls|..]
      // exactly those candidates, each once, in move order
      ensures walls' == walls + Candidates(cell, 0)
    {
      var added: seq<Pos> := [];
      for k := 0 to 4
        invariant added + Candidates(cell, k) == Candidates(cell, 0)
      {
        var n := Beyond(cell, k);
        if 0 <= n.0 < height && 0 <= n.1 < width && grid[n.0, n.1] == Wall {
          assert added + [Neighbour(cell, k)] + Candidates(cell, k + 1) == added + Candidates(cell, k);
          added := added + [Neighbour(cell, k)];
        }
      }
      walls' := walls + added;
      CandidatesAround(cell, 0);
      assert walls'[|walls|..] == added;
    }

    /** maze7.py:50-62, maze8.py:67-79: breadth-first reachability of the goal from the start
        over the cells that are not walls. It holds exactly when the goal is reachable;
        `queued` lists every cell it queued, each once and each reachable, and when the goal
        is not reachable it lists exactly the cells that are. */
    method IsSolvable() returns (r: bool, ghost queued: seq<Pos>)
      requires Valid()
      ensures r <==> Reachable(LayoutOf(grid), start, goal)
      ensures forall i, j :: 0 <= i < j < |queued| ==> queued[i] != queued[j]
      ensures forall c :: c in queued ==> Reachable(LayoutOf(grid), start, c)
      ensures !r ==> forall c :: c in queued <==> Reachable(LayoutOf(grid), start, c)
    {
      ghost var l := LayoutOf(grid);
      var queue := [start];
      var visited := {start};
      ghost var done: set<Pos> := {};
      queued := [start];
      ReachableSelf(l, start);
      ghost var cells := CellsBound(height, width);
      while queue != []
        invariant Searching(l, start, goal, queue, visited, done, queued)
        invariant visited <= cells
        decreases |cells - visited|, |queue|
      {
        var p := queue[0];
        assert queue == [p] + queue[1..];
        queue := queue[1..];
        if p == goal {
          return true, queued;
        }
        queue, visited, queued := Expand(p, queue, visited, done, queued, l, cells);
        done := done + {p};
      }
      assert visited == done;
      forall c
        ensures c in queued <==> Reachable(l, start, c)
      {
        if c !in visited {
          ClosedSetUnreachable(l, visited, start, c);
        }
      }
      ClosedSetUnreachable(l, visited, start, goal);
      return false, queued;
    }

    /** maze7.py:57-61: the four moves from the dequeued cell `p`, each queueing and visiting
        a neighbour inside the grid that is neither visited nor a wall. */
    method Expand(p: Pos, queue: seq<Pos>, visited: set<Pos>, ghost done: set<Pos>,
                  ghost queued: seq<Pos>, ghost l: Layout, ghost cells: set<Pos>)
      returns (queue': seq<Pos>, visited': set<Pos>, ghost queued': seq<Pos>)
      requires Valid() && l == LayoutOf(grid)
      requires Searching(l, start, goal, [p] + queue, visited, done, queued) && p != goal
      requires visited <= cells && forall q :: InRange(height, width, q) ==> q in cells
      ensures Searching(l, start, goal, queue', visited', done + {p}, queued')
      ensures visited' <= cells
      ensures (visited' == visited && queue' == queue) || |cells - visited'| < |cells - visited|
    {
      queue', visited', queued' := queue, visited, queued;
      for k := 0 to 4
        invariant visited <= visited' <= cells
        invariant Searching(l, start, goal, [p] + queue', visited', done, queued')
        invariant MovesSeen(l, p, k, visited')
        invariant (visited' == visited && queue' == queue) || |cells - visited'| < |cells - visited|
      {
        var n := Neighbour(p, k);
        if 0 <= n.0 < height && 0 <= n.1 < width && n !in visited' && grid[n.0, n.1] != Wall {
          SearchingPush(l, start, goal, p, queue', visited', done, queued', k);
          ghost var v1 := visited';
          queue', visited', queued' := queue' + [n], visited' + {n}, queued' + [n];
          UnvisitedShrinks(cells, visited, visited', n);
          MovesSeenGrows(l, p, k, v1, visited');
        } else {
          MovesSeenGrows(l, p, k, visited', visited');
        }
      }
      SearchingPop(l, start, goal, p, queue', visited', done, queued');
    }

    /** maze7.py:27-36, maze8.py:44-53: carving from the start. A candidate is picked at
        random and its first occurrence removed from the list; when exactly one of its
        neighbours is open it becomes open and its own candidates join the list. Only the
        open marker is ever written. Without an open cell in the grid nothing is carved, so
        the grid is left as it was and, given `CarveFuel` iterations, the candidate list runs
        empty. The loop stops after `fuel` iterations at the latest. */
    method GeneratePaths(fuel: nat) returns (ghost leftover: seq<Pos>)
      requires Valid()
      modifies grid
      ensures forall i, j :: 0 <= i < height && 0 <= j < width ==>
        grid[i, j] == old(grid[i, j]) || grid[i, j] == Open
      ensures old(NoOpen()) ==> forall i, j :: 0 <= i < height && 0 <= j < width ==>
        grid[i, j] == old(grid[i, j])
      ensures old(NoOpen()) && fuel >= CarveFuel ==> leftover == []
    {
      var walls := AddWalls(start, []);
      var steps := 0;
      while walls != [] && steps < fuel
        invariant 0 <= steps <= fuel
        invariant forall q :: q in walls ==> InRange(height, width, q)
        invariant forall i, j :: 0 <= i < height && 0 <= j < width ==>
          grid[i, j] == old(grid[i, j]) || grid[i, j] == Open
        invariant old(NoOpen()) ==>
          NoOpen() && |walls| + steps <= CarveFuel &&
          forall i, j :: 0 <= i < height && 0 <= j < width ==> grid[i, j] == old(grid[i, j])
        decreases fuel - steps
      {
        var k :| 0 <= k < |walls|;
        var wall := walls[k];
        walls := RemoveFirst(walls, wall);
        if CanBePath(wall) {
          if old(NoOpen()) {
            NothingToCarve(wall);
            assert false;
          }
          grid[wall.0, wall.1] := Open;
          walls := AddWalls(wall, walls);
        }
        steps := steps + 1;
      }
      leftover := walls;
    }

    /** maze7.py:64-71, maze8.py:81-88, and the identical maze8.py:34-42: an all-open grid
        with 'S' at the start and 'G' at the goal, then `budget` cells picked at random,
        each turned into a wall unless it is the start or the goal. */
    method GenerateFallbackMaze()
      requires height >= 1 && width >= 1 && InRange(height, width, start) && InRange(height, width, goal)
      modifies this
      ensures Valid() && fresh(grid) && goal == old(goal)
      ensures FallbackForm(grid, start, goal, budget)
    {
      grid := new Cell[height, width]((i, j) => Open);
      grid[start.0, start.1] := Start;
      grid[goal.0, goal.1] := Goal;
      PlaceRandomWalls();
    }

    /** maze7.py:68-71: the random wall placements of the fallback. */
    method PlaceRandomWalls()
      requires Valid() && WallsAt(grid, start, goal, {})
      modifies grid
      ensures FallbackForm(grid, start, goal, budget)
    {
      ghost var placed: set<Pos> := {};
      for n := 0 to budget
        invariant forall q :: q in placed ==> InRange(height, width, q) && q != start && q != goal
        invariant |placed| <= n
        invariant WallsAt(grid, start, goal, placed)
      {
        var p := RandomPosition();
        if p != start && p != goal {
          grid[p.0, p.1] := Wall;
          placed := placed + {p};
        }
      }
      WallsAtForm(grid, start, goal, placed, budget);
    }

    /** maze7.py:15-18, maze8.py:23-27: a fresh all-wall grid, 'S' written at the start and
        'G' at the goal, then carved. Nothing is carved, so the grid stays fresh. */
    method BuildAndCarve()
      requires height >= 1 && width >= 1 && InRange(height, width, start) && InRange(height, width, goal)
      modifies this
      ensures Valid() && fresh(grid) && goal == old(goal) && FreshForm(grid, start, goal)
    {
      grid := new Cell[height, width]((i, j) => Wall);
      grid[start.0, start.1] := Start;
      grid[goal.0, goal.1] := Goal;
      assert NoOpen();
      ghost var _ := GeneratePaths(CarveFuel);
    }

    /** maze7.py:12-25: up to `MaxAttempts` fresh carved grids, returning after the first
        solvable one with its attempt number; otherwise the fallback grid. Every attempt
        builds the same grid, so the first one succeeds exactly when the goal is the start or
        next to it, and otherwise all of them fail. */
    method GenerateMaze() returns (attempts: nat)
      requires height >= 1 && width >= 1 && InRange(height, width, start) && InRange(height, width, goal)
      modifies this
      ensures Valid() && fresh(grid) && goal == old(goal)
      ensures goal == start || Adjacent(start, goal) ==>
        attempts == 1 && FreshForm(grid, start, goal) && Reachable(LayoutOf(grid), start, goal)
      ensures !(goal == start || Adjacent(start, goal)) ==>
        attempts == MaxAttempts && FallbackForm(grid, start, goal, budget)
    {
      for attempt := 0 to MaxAttempts
        invariant goal == old(goal)
        invariant attempt > 0 ==> !(goal == start || Adjacent(start, goal))
      {
        BuildAndCarve();
        var solvable, _ := IsSolvable();
        FreshReachable(grid, start, goal);
        if solvable {
          return attempt + 1;
        }
      }
      GenerateFallbackMaze();
      attempts := MaxAttempts;
    }

    /** maze8.py:23-27: a fresh all-wall grid with 'S' at the start, a new goal picked at
        random and 'G' written there, then carved. Nothing is carved, so the grid stays
        fresh. */
    method Retry()
      requires height >= 1 && width >= 1 && InRange(height, width, start)
      modifies this
      ensures Valid() && fresh(grid) && FreshForm(grid, start, goal)
    {
      grid := new Cell[height, width]((i, j) => Wall);
      grid[start.0, start.1] := Start;
      goal := RandomPosition();
      grid[goal.0, goal.1] := Goal;
      assert NoOpen();
      ghost var _ := GeneratePaths(CarveFuel);
    }

    /** maze8.py:15-32: the constructor's grid is carved and then retried, each retry with a
        new random goal, while it is not solvable and fewer than `MaxAttempts` retries were
        made. The fallback runs whenever the retry counter reaches `MaxAttempts`, even when
        the last retry produced a solvable grid. A grid kept without the fallback is solvable;
        carved from an all-wall grid it is fresh, so its goal is the start or next to it. */
    method GenerateMazeWithRetries() returns (attempts: nat)
      requires Valid() && height >= 1 && width >= 1
      modifies this, grid
      ensures Valid() && attempts <= MaxAttempts
      ensures attempts < MaxAttempts ==> Reachable(LayoutOf(grid), start, goal)
      ensures (0 < attempts < MaxAttempts || (old(AllWalls()) && attempts == 0)) ==>
        FreshForm(grid, start, goal) && (goal == start || Adjacent(start, goal))
      ensures attempts == MaxAttempts ==> FallbackForm(grid, start, goal, budget)
    {
      ghost var fresh0 := AllWalls();
      grid[start.0, start.1] := Start;
      grid[goal.0, goal.1] := Goal;
      if fresh0 {
        assert NoOpen();
      }
      ghost var _ := GeneratePaths(CarveFuel);
      attempts := 0;
      var solvable, queued := IsSolvable();
      while !solvable && attempts < MaxAttempts
        invariant Valid() && attempts <= MaxAttempts
        invariant solvable <==> Reachable(LayoutOf(grid), start, goal)
        invariant attempts > 0 || fresh0 ==> FreshForm(grid, start, goal)
        decreases MaxAttempts - attempts
      {
        Retry();
        attempts := attempts + 1;
        solvable, queued := IsSolvable();
      }
      if attempts == MaxAttempts {
        GenerateFallbackMaze();
      } else if attempts > 0 || fresh0 {
        FreshReachable(grid, start, goal);
      }
    }
  }
}
