/** The explorer of maze4.py, copied unchanged into maze8.py: a recursive depth-first search
    that keeps the current branch on a stack, overwrites each entered cell with the marker
    and numbers every record of its trace: one on entering a cell, one on reaching the goal
    and a second one when a cell is abandoned. */
module TraceDfs {
  import opened Grid

  /** What a successful call from `position` leaves on the stack: nothing when `position`
      is the goal itself; otherwise a walk from `position` whose last cell is a neighbour of
      the passable goal (the goal is never pushed). */
  ghost predicate TowardGoal(l: Layout, w: seq<Pos>, position: Pos, goal: Pos) {
    if w == [] then position == goal
    else w[0] == position && IsWalk(l, w) && Adjacent(w[|w| - 1], goal) && Passable(l, goal)
  }

  /** How a successful call from `position`, other than at the goal, leaves the stack: its
      own cell, then what the call into its neighbour by `move` left. The moves before
      `move`, in East, South, West, North order, had all come to nothing when that call
      began, with `before` visited (`TriedBefore`), and the cells it left were visited by
      it, so after `before`. */
  ghost predicate LeavesBy(l: Layout, w: seq<Pos>, position: Pos, move: int, entered: set<Pos>,
                           before: set<Pos>, v: set<Pos>, goal: Pos) {
    TriedBefore(l, position, move, entered, before) && before <= v &&
    |w| > 0 && w[0] == position && TowardGoal(l, w[1..], Neighbour(position, move), goal) &&
    AllIn(w[1..], v - before)
  }

  /** The caller of a successful call into its passable neighbour `next` sits below that
      call's cells on the stack. */
  lemma TowardGoalExtends(l: Layout, w: seq<Pos>, position: Pos, next: Pos, goal: Pos)
    requires TowardGoal(l, w, next, goal)
    requires Adjacent(position, next) && Passable(l, next)
    ensures TowardGoal(l, [position] + w, position, goal)
  {
    var w' := [position] + w;
    if w != [] {
      assert forall i :: 0 < i < |w'| ==> w'[i] == w[i - 1];
    }
  }

  /** Whatever a successful call leaves on the stack, the goal is reachable from its
      position. */
  lemma TowardGoalReaches(l: Layout, w: seq<Pos>, position: Pos, goal: Pos)
    requires TowardGoal(l, w, position, goal)
    ensures Reachable(l, position, goal)
  {
    if w == [] {
      ReachableSelf(l, position);
    } else {
      assert Reachable(l, position, w[|w| - 1]);
      ReachableStep(l, position, w[|w| - 1], goal);
    }
  }

  /** What a whole search from `start` promises: found exactly when the goal is reachable;
      the goal never visited; on success, a stack of distinct visited cells that walks from
      the start toward the goal, leaving the start by its first successful move; on failure,
      an empty stack. */
  ghost predicate Outcome(l: Layout, start: Pos, goal: Pos, found: bool, move: int,
                          before: set<Pos>, path: seq<Pos>, visited: set<Pos>)
  {
    (found <==> Reachable(l, start, goal)) && goal !in visited &&
    (found ==> TowardGoal(l, path, start, goal) && AllIn(path, visited) && Distinct(path)) &&
    (found && start != goal ==> LeavesBy(l, path, start, move, {start}, before, visited, goal)) &&
    (!found ==> path == [])
  }

  /** What the search from the start leaves, read off the outcome of its top-level call on
      an empty visited set and stack: found exactly when the goal is reachable, the goal
      never visited, and on success every stacked cell visited and the stack leaving the
      start by its first successful move. */
  lemma SearchOutcome(l: Layout, start: Pos, goal: Pos, found: bool, w: seq<Pos>, move: int,
                      before: set<Pos>, path0: seq<Pos>, v0: set<Pos>, path: seq<Pos>, visited: set<Pos>)
    requires path0 == [] && v0 == {}
    requires goal !in visited - v0
    requires start != goal ==> start in visited
    requires start == goal ==> found
    requires found ==> path == path0 + w && TowardGoal(l, w, start, goal) && AllIn(w, visited - v0) && Distinct(w)
    requires found && start != goal ==> LeavesBy(l, w, start, move, v0 + {start}, before, visited, goal)
    requires !found ==> path == path0 && ClosedIn(l, visited - v0, visited)
    ensures Outcome(l, start, goal, found, move, before, path, visited)
  {
    assert visited - v0 == visited && v0 + {start} == {start};
    if found {
      assert path == w;
      TowardGoalReaches(l, w, start, goal);
    } else {
      ClosedSetUnreachable(l, visited, start, goal);
    }
  }

  /** On the `Detour` layout, from (0, 0) to (0, 2), the search tries East first, so the
      stack it leaves holds just (0, 0) and (0, 1): any outcome FindExit promises there is
      that one, never the detour through (1, 0), (1, 1) and (0, 1). */
  lemma {:induction false} DetourStack(found: bool, move: int, before: set<Pos>, path: seq<Pos>, visited: set<Pos>)
    requires Outcome(Detour, (0, 0), (0, 2), found, move, before, path, visited)
    ensures found && path == [(0, 0), (0, 1)]
  {
    assert IsWalk(Detour, [(0, 0), (0, 1), (0, 2)]);
    assert found;
    if move != 0 {
      // East was tried first and came to nothing, yet (0, 2) lies East of (0, 1)
      NeighbourAdjacent((0, 0), 0);
      assert false;
    }
    assert path[1..][0] == (0, 1);
    // the only passable neighbour of (0, 2) is (0, 1), which the stack holds only once
    WalkStep(Detour, path, |path| - 1);
    assert path[|path| - 1] == (0, 1);
  }

  /** The records carry the numbers 1, 2, 3, ... in order. */
  ghost predicate CountedFromOne(e: seq<(int, Pos)>) {
    forall i :: 0 <= i < |e| ==> e[i].0 == i + 1
  }

  /** The numbered records of a non-empty trace: numbers 1, 2, 3, ..., the first record is
      the first position and the last record the last one. */
  lemma NumberedEnds(e: seq<(int, Pos)>, t: seq<Pos>)
    requires e == Numbered(t) && |t| > 0
    ensures |e| == |t| && CountedFromOne(e)
    ensures e[0] == (1, t[0]) && e[|e| - 1].1 == t[|t| - 1]
  {
    NumberedEntries(t);
  }

  class Player {
    const maze: Maze
    var visited: set<Pos>
    var path: seq<Pos>
    var explorationOrder: seq<(int, Pos)>
    var order: int
    // the positions recorded in `explorationOrder`, in order
    ghost var trace: seq<Pos>

    constructor(maze: Maze)
      ensures this.maze == maze && visited == {} && path == [] && explorationOrder == [] && order == 0
      ensures trace == []
    {
      this.maze := maze;
      visited := {};
      path := [];
      explorationOrder := [];
      order := 0;
      trace := [];
    }

    /** The counter is the number of records, and the records are the trace numbered
        1, 2, 3, ... */
    ghost predicate Recorded()
      reads this
    {
      order == |trace| && explorationOrder == Numbered(trace)
    }

    /** One record: the counter goes up and `p` is logged under the new number. */
    method Record(p: Pos)
      requires Recorded()
      modifies this
      ensures Recorded() && trace == old(trace) + [p]
      ensures visited == old(visited) && path == old(path)
    {
      NumberedAppend([], trace, p);
      order := order + 1;
      explorationOrder := explorationOrder + [(order, p)];
      trace := trace + [p];
    }

    /** The recursive search from `position`, which is the goal or a passable cell not yet
        visited. `v0` and `g0` are what `visited` and the grid held when the whole search
        began: the marked cells are exactly those visited since. `cells` holds every
        in-range cell and only bounds the recursion. */
    method Dfs(position: Pos, ghost cells: set<Pos>, ghost v0: set<Pos>, ghost g0: map<Pos, Cell>)
      returns (found: bool, ghost w: seq<Pos>, ghost recorded: seq<Pos>, ghost move: int, ghost before: set<Pos>)
      requires maze.Valid() && Recorded()
      requires forall p :: InRange(maze.grid.Length0, maze.grid.Length1, p) ==> p in cells
      requires position == maze.goal || Passable(maze.Shape(), position)
      requires position !in visited
      requires v0 <= visited && MarkedOver(maze.grid, g0, visited - v0)
      modifies this, maze.grid
      decreases |cells - visited|, 3
      ensures maze.Valid() && Recorded()
      ensures old(visited) <= visited && MarkedOver(maze.grid, g0, visited - v0)
      ensures maze.goal !in visited - old(visited)
      ensures forall c :: c in visited - old(visited) ==> Passable(maze.Shape(), c)
      // `recorded` is what the call adds to the trace; its first record is `position`
      ensures trace == old(trace) + recorded && |recorded| > 0 && recorded[0] == position
      // the goal gets a single record and is neither visited nor pushed
      ensures position == maze.goal ==>
        found && w == [] && visited == old(visited) && path == old(path) && recorded == [position]
      // any other cell is visited on entry
      ensures position != maze.goal ==> position in visited
      ensures found ==> path == old(path) + w && TowardGoal(maze.Shape(), w, position, maze.goal)
      ensures found ==> recorded[|recorded| - 1] == maze.goal
      // every cell left on the stack was visited by this call, and none is there twice
      ensures found ==> AllIn(w, visited - old(visited)) && Distinct(w)
      // away from the goal, the stack continues with the cells of the first move, in East,
      // South, West, North order, whose call succeeded: the earlier moves had all come to
      // nothing when it began, with `before` visited
      ensures found && position != maze.goal ==>
        LeavesBy(maze.Shape(), w, position, move, old(visited) + {position}, before, visited, maze.goal)
      // a failed call pops its own cell, records it again and has seen every passable
      // neighbour of each cell it visited
      ensures !found ==> path == old(path) && |recorded| >= 2 && recorded[|recorded| - 1] == position
      ensures !found ==> ClosedIn(maze.Shape(), visited - old(visited), visited)
    {
      if maze.IsGoal(position) {
        Record(position);
        return true, [], [position], 0, visited;
      }
      found, w, recorded, move, before := Expand(position, cells, v0, g0);
    }

    /** A call at a cell other than the goal: the cell is entered, its neighbours are tried,
        and if none succeeds it is popped and recorded a second time. */
    method Expand(position: Pos, ghost cells: set<Pos>, ghost v0: set<Pos>, ghost g0: map<Pos, Cell>)
      returns (found: bool, ghost w: seq<Pos>, ghost recorded: seq<Pos>, ghost move: int, ghost before: set<Pos>)
      requires maze.Valid() && Recorded()
      requires forall p :: InRange(maze.grid.Length0, maze.grid.Length1, p) ==> p in cells
      requires position != maze.goal && Passable(maze.Shape(), position) && position !in visited
      requires v0 <= visited && MarkedOver(maze.grid, g0, visited - v0)
      modifies this, maze.grid
      decreases |cells - visited|, 2
      ensures maze.Valid() && Recorded()
      ensures old(visited) + {position} <= visited && MarkedOver(maze.grid, g0, visited - v0)
      ensures maze.goal !in visited - old(visited)
      ensures forall c :: c in visited - old(visited) ==> Passable(maze.Shape(), c)
      ensures trace == old(trace) + recorded && |recorded| > 0 && recorded[0] == position
      ensures found ==> path == old(path) + w && TowardGoal(maze.Shape(), w, position, maze.goal)
      ensures found ==> recorded[|recorded| - 1] == maze.goal
      ensures found ==> AllIn(w, visited - old(visited)) && Distinct(w)
      ensures found ==> LeavesBy(maze.Shape(), w, position, move, old(visited) + {position}, before, visited, maze.goal)
      ensures !found ==> path == old(path) && |recorded| >= 2 && recorded[|recorded| - 1] == position
      ensures !found ==> ClosedIn(maze.Shape(), visited - old(visited), visited)
    {
      Enter(position, v0, g0);
      ghost var sub;
      found, move, before, w, sub := Explore(position, cells, old(visited), v0, g0);
      AppendAssociates(old(trace), [position], sub);
      if found {
        TowardGoalExtends(maze.Shape(), w, position, Neighbour(position, move), maze.goal);
        AppendAssociates(old(path), [position], w);
        assert ([position] + w)[1..] == w;
        DistinctEnds(w, position);
        return true, [position] + w, [position] + sub, move, before;
      }
      MovesSeenCloses(maze.Shape(), visited - old(visited) - {position}, position, visited, visited - old(visited));
      path := path[..|path| - 1];
      Record(position);
      AppendAssociates(old(trace), [position] + sub, [position]);
      return false, [], [position] + sub + [position], 4, visited;
    }

    /** The move loop of a call that has just entered `position`: each neighbour, East,
        South, West and North in turn, is tried until one call succeeds. `outer` is what
        `visited` held before `position` was entered. */
    method Explore(position: Pos, ghost cells: set<Pos>, ghost outer: set<Pos>, ghost v0: set<Pos>,
                   ghost g0: map<Pos, Cell>)
      returns (found: bool, ghost move: int, ghost before: set<Pos>, ghost w: seq<Pos>, ghost recorded: seq<Pos>)
      requires maze.Valid() && Recorded()
      requires forall p :: InRange(maze.grid.Length0, maze.grid.Length1, p) ==> p in cells
      requires position in cells && position in visited && position !in outer && outer <= visited
      requires v0 <= visited && MarkedOver(maze.grid, g0, visited - v0)
      modifies this, maze.grid
      decreases |cells - outer|, 1
      ensures maze.Valid() && Recorded()
      ensures old(visited) <= visited && MarkedOver(maze.grid, g0, visited - v0)
      ensures maze.goal !in visited - old(visited)
      ensures forall c :: c in visited - old(visited) ==> Passable(maze.Shape(), c)
      ensures trace == old(trace) + recorded
      // the loop stops at the first move, in East, South, West, North order, whose call
      // succeeds: the earlier moves had all come to nothing when it began, with `before`
      // visited, and the cells it leaves on the stack were visited after that
      ensures found ==> TriedBefore(maze.Shape(), position, move, old(visited), before) && before <= visited
      ensures found ==> AllIn(w, visited - before) && Distinct(w)
      ensures found ==> Adjacent(position, Neighbour(position, move)) && Passable(maze.Shape(), Neighbour(position, move))
      ensures found ==> path == old(path) + w && TowardGoal(maze.Shape(), w, Neighbour(position, move), maze.goal)
      ensures found ==> AllIn(w, visited - old(visited))
      ensures found ==> |recorded| > 0 && recorded[|recorded| - 1] == maze.goal
      ensures !found ==> path == old(path) && MovesSeen(maze.Shape(), position, 4, visited)
      ensures !found ==> ClosedIn(maze.Shape(), visited - old(visited), visited)
    {
      ghost var l := maze.Shape();
      recorded := [];
      var k := 0;
      while k < 4
        invariant 0 <= k <= 4
        invariant maze.Valid() && Recorded()
        invariant old(visited) <= visited && MarkedOver(maze.grid, g0, visited - v0)
        invariant path == old(path)
        invariant maze.goal !in visited - old(visited)
        invariant forall c :: c in visited - old(visited) ==> Passable(l, c)
        invariant trace == old(trace) + recorded
        invariant ClosedIn(l, visited - old(visited), visited)
        invariant MovesSeen(l, position, k, visited)
      {
        ghost var sub := [];
        before := visited;
        UnvisitedShrinks(cells, outer, visited, position);
        found, w, sub := TryMove(position, k, cells, v0, g0);
        AppendAssociates(old(trace), recorded, sub);
        if found {
          return found, k, before, w, recorded + sub;
        }
        recorded := recorded + sub;
        ClosedUnion(l, before - old(visited), visited - before, before, visited, visited - old(visited));
        MovesSeenGrows(l, position, k, before, visited);
        k := k + 1;
      }
      return false, 4, visited, [], recorded;
    }

    /** Entering a cell other than the goal: it is visited, pushed, overwritten with the
        marker and recorded. */
    method Enter(position: Pos, ghost v0: set<Pos>, ghost g0: map<Pos, Cell>)
      requires maze.Valid() && Recorded()
      requires Passable(maze.Shape(), position) && position !in visited
      requires v0 <= visited && MarkedOver(maze.grid, g0, visited - v0)
      modifies this, maze.grid
      ensures maze.Valid() && Recorded()
      ensures visited == old(visited) + {position} && MarkedOver(maze.grid, g0, visited - v0)
      ensures path == old(path) + [position] && trace == old(trace) + [position]
    {
      visited := visited + {position};
      path := path + [position];
      maze.MarkVisited(position, g0, old(visited) - v0);
      assert (old(visited) - v0) + {position} == visited - v0;
      Record(position);
    }

    /** One turn of the move loop of a call at `position`: the k-th neighbour is searched
        when it is in bounds, not a wall and not yet visited. */
    method TryMove(position: Pos, k: int, ghost cells: set<Pos>, ghost v0: set<Pos>, ghost g0: map<Pos, Cell>)
      returns (found: bool, ghost w: seq<Pos>, ghost recorded: seq<Pos>)
      requires maze.Valid() && Recorded()
      requires forall p :: InRange(maze.grid.Length0, maze.grid.Length1, p) ==> p in cells
      requires 0 <= k < 4 && position in visited
      requires v0 <= visited && MarkedOver(maze.grid, g0, visited - v0)
      modifies this, maze.grid
      decreases |cells - visited| + 1, 0
      ensures maze.Valid() && Recorded()
      ensures old(visited) <= visited && MarkedOver(maze.grid, g0, visited - v0)
      ensures maze.goal !in visited - old(visited)
      ensures forall c :: c in visited - old(visited) ==> Passable(maze.Shape(), c)
      ensures trace == old(trace) + recorded
      ensures !found ==> path == old(path)
      ensures !found ==> ClosedIn(maze.Shape(), visited - old(visited), visited)
      ensures !found ==> Passable(maze.Shape(), Neighbour(position, k)) ==> Neighbour(position, k) in visited
      ensures found ==> Adjacent(position, Neighbour(position, k)) && Passable(maze.Shape(), Neighbour(position, k))
      ensures found ==> path == old(path) + w && TowardGoal(maze.Shape(), w, Neighbour(position, k), maze.goal)
      ensures found ==> |recorded| > 0 && recorded[|recorded| - 1] == maze.goal
      ensures found ==> AllIn(w, visited - old(visited)) && Distinct(w)
      // a neighbour out of bounds, on a wall or already visited is not searched
      ensures !Passable(maze.Shape(), Neighbour(position, k)) || Neighbour(position, k) in old(visited) ==>
        !found && visited == old(visited) && path == old(path) && recorded == [] &&
        order == old(order) && explorationOrder == old(explorationOrder) && unchanged(maze.grid)
    {
      var next := Neighbour(position, k);
      maze.CanStepIff(next);
      if maze.IsWithinBounds(next) && !maze.IsWall(next) && next !in visited {
        ghost var move, before;
        found, w, recorded, move, before := Dfs(next, cells, v0, g0);
        NeighbourAdjacent(position, k);
        return;
      }
      return false, [], [];
    }

    /** Runs the search from the start on a fresh player. The start is written with the
        marker like any entered cell, so unless it is the goal it must be an in-range cell
        that is not a wall. */
    method FindExit() returns (found: bool, ghost move: int, ghost before: set<Pos>)
      requires maze.Valid()
      requires visited == {} && path == [] && explorationOrder == [] && order == 0
      requires maze.start == maze.goal || Passable(maze.Shape(), maze.start)
      modifies this, maze.grid
      ensures found <==> Reachable(maze.Shape(), maze.start, maze.goal)
      // success leaves a walk from the start to a neighbour of the goal, or nothing when
      // the start is the goal; failure leaves an empty stack
      ensures found ==> TowardGoal(maze.Shape(), path, maze.start, maze.goal)
      ensures !found ==> path == []
      // the goal is never visited, and every cell left on the stack was, once; away from the
      // goal, the stack goes on through the first move of the start, in East, South, West,
      // North order, whose call succeeded
      ensures maze.goal !in visited
      ensures found ==> AllIn(path, visited) && Distinct(path)
      ensures found && maze.start != maze.goal ==>
        LeavesBy(maze.Shape(), path, maze.start, move, {maze.start}, before, visited, maze.goal)
      ensures Outcome(maze.Shape(), maze.start, maze.goal, found, move, before, path, visited)
      // the records are numbered 1, 2, 3, ... with the counter at the last number; the
      // first is the start and the last the goal on success, the start again on failure
      ensures order == |explorationOrder| > 0
      ensures CountedFromOne(explorationOrder)
      ensures explorationOrder[0] == (1, maze.start)
      ensures explorationOrder[order - 1].1 == if found then maze.goal else maze.start
    {
      trace := [];
      ghost var recorded;
      found, move, before, recorded := Launch();
      assert trace == recorded;
      NumberedEnds(explorationOrder, trace);
      assert CountedFromOne(explorationOrder);
    }

    /** The top-level call of the search, from the start on an empty visited set, stack and
        trace. */
    method Launch() returns (found: bool, ghost move: int, ghost before: set<Pos>, ghost recorded: seq<Pos>)
      requires maze.Valid() && Recorded() && trace == []
      requires visited == {} && path == []
      requires maze.start == maze.goal || Passable(maze.Shape(), maze.start)
      modifies this, maze.grid
      ensures Recorded() && trace == old(trace) + recorded && |recorded| > 0 && recorded[0] == maze.start
      ensures recorded[|recorded| - 1] == if found then maze.goal else maze.start
      ensures Outcome(maze.Shape(), maze.start, maze.goal, found, move, before, path, visited)
    {
      ghost var g0 := Snapshot(maze.grid);
      ghost var cells := CellsBound(maze.grid.Length0, maze.grid.Length1);
      ghost var w;
      found, w, recorded, move, before := Dfs(maze.start, cells, {}, g0);
      SearchOutcome(maze.Shape(), maze.start, maze.goal, found, w, move, before, old(path), old(visited), path, visited);
    }
  }
}
